/** Vector registers as sequences of lanes, and dot products over sequences. */
module Lanes {
  type int8 = x: int | -128 <= x <= 127
  type int32 = x: int | -0x8000_0000 <= x <= 0x7FFF_FFFF

  const INT32_MAX: int := 0x7FFF_FFFF

  /** Two's-complement truncation to 32, 16 and 8 bits. */
  function Wrap32(x: int): (r: int32)
    ensures -0x8000_0000 <= x <= 0x7FFF_FFFF ==> r == x
  {
    if -0x8000_0000 <= x <= 0x7FFF_FFFF then x else (x + 0x8000_0000) % 0x1_0000_0000 - 0x8000_0000
  }

  function Wrap16(x: int): (r: int)
    ensures -0x8000 <= r <= 0x7FFF
    ensures -0x8000 <= x <= 0x7FFF ==> r == x
  {
    if -0x8000 <= x <= 0x7FFF then x else (x + 0x8000) % 0x1_0000 - 0x8000
  }

  function Wrap8(x: int): (r: int8)
    ensures -128 <= x <= 127 ==> r == x
  {
    if -128 <= x <= 127 then x else (x + 128) % 256 - 128
  }

  /** Signed saturation to 16 and 8 bits. */
  function Sat16(x: int): (r: int)
    ensures -0x8000 <= x <= 0x7FFF ==> r == x
  {
    if x > 0x7FFF then 0x7FFF else if x < -0x8000 then -0x8000 else x
  }

  function Sat8(x: int): (r: int8)
    ensures -128 <= x <= 127 ==> r == x
  {
    if x > 127 then 127 else if x < -128 then -128 else x
  }

  lemma Blocks32(dim: nat) returns (q: nat)
    requires dim % 32 == 0
    ensures dim == 32 * q
  {
    q := dim / 32;
  }

  lemma Blocks16(dim: nat) returns (q: nat)
    requires dim % 16 == 0
    ensures dim == 16 * q
  {
    q := dim / 16;
  }

  lemma HalfStride(dim: nat)
    requires dim % 32 == 0
    ensures dim % 16 == 0
  {
    var q := dim / 32;
    assert dim == 16 * (2 * q);
  }

  // ---- sums and dot products over integers ----

  ghost function Sum(v: seq<int>): int {
    if v == [] then 0 else Sum(v[..|v| - 1]) + v[|v| - 1]
  }

  ghost function Products(a: seq<int>, b: seq<int>): (r: seq<int>)
    requires |a| == |b|
    ensures |r| == |a|
  {
    seq(|a|, k requires 0 <= k < |a| => a[k] * b[k])
  }

  ghost function Dot(a: seq<int>, b: seq<int>): int
    requires |a| == |b|
  {
    Sum(Products(a, b))
  }

  ghost predicate Bounded(v: seq<int>, m: int) {
    forall k :: 0 <= k < |v| ==> -m <= v[k] <= m
  }

  lemma {:induction false} SumConcat(u: seq<int>, v: seq<int>)
    ensures Sum(u + v) == Sum(u) + Sum(v)
    decreases |v|
  {
    if v == [] {
      assert u + v == u;
    } else {
      assert (u + v)[..|u + v| - 1] == u + v[..|v| - 1];
      SumConcat(u, v[..|v| - 1]);
    }
  }

  lemma DotConcat(a: seq<int>, b: seq<int>, c: seq<int>, d: seq<int>)
    requires |a| == |b| && |c| == |d|
    ensures Dot(a + c, b + d) == Dot(a, b) + Dot(c, d)
  {
    SumConcat(Products(a, b), Products(c, d));
    assert Products(a + c, b + d) == Products(a, b) + Products(c, d);
  }

  /** The next block of `w` elements adds its own dot product. */
  lemma DotBlock(a: seq<int>, b: seq<int>, i: nat, w: nat)
    requires i + w <= |a| && i + w <= |b|
    ensures Dot(a[..i + w], b[..i + w]) == Dot(a[..i], b[..i]) + Dot(a[i..i + w], b[i..i + w])
  {
    DotConcat(a[..i], b[..i], a[i..i + w], b[i..i + w]);
    assert a[..i] + a[i..i + w] == a[..i + w] && b[..i] + b[i..i + w] == b[..i + w];
  }

  lemma MulMono(x: int, m: int, y: int)
    requires 0 <= x <= m && -m <= y <= m
    ensures -(m * m) <= x * y <= m * m
  {
    assert x * y <= x * m <= m * m;
    assert x * y >= x * -m == -(x * m);
  }

  lemma ProductBound(x: int, y: int)
    requires -128 <= x <= 128 && -128 <= y <= 128
    ensures -16384 <= x * y <= 16384
  {
    if x >= 0 { MulMono(x, 128, y); } else { MulMono(-x, 128, y); assert -x * y == -(x * y); }
  }

  lemma ProductsBound(a: seq<int>, b: seq<int>)
    requires |a| == |b| && Bounded(a, 128) && Bounded(b, 128)
    ensures Bounded(Products(a, b), 16384)
  {
    forall k | 0 <= k < |a|
      ensures -16384 <= Products(a, b)[k] <= 16384
    {
      ProductBound(a[k], b[k]);
    }
  }

  lemma {:induction false} SumBound(v: seq<int>)
    requires Bounded(v, 16384)
    ensures -(|v| * 16384) <= Sum(v) <= |v| * 16384
    decreases |v|
  {
    if v != [] { SumBound(v[..|v| - 1]); }
  }
}
