/** The int8 dot product kernels: AVX2, NEON with and without the dot-product extension, scalar. */
module DotI8 {
  import opened Lanes

  // ---- instructions ----

  /** Lane-wise 32-bit addition (`_mm256_add_epi32`, `_mm_add_epi32`). */
  function Add32(u: seq<int>, v: seq<int>): (r: seq<int>)
    requires |u| == |v|
    ensures |r| == |u|
  {
    seq(|u|, k requires 0 <= k < |u| => Wrap32(u[k] + v[k]))
  }

  /** Products of 16-bit lanes, adjacent pairs added in 32 bits (`_mm256_madd_epi16`). */
  function Madd16(x: seq<int>, y: seq<int>): (r: seq<int>)
    requires |x| == |y| == 16
    ensures |r| == 8
  {
    [Wrap32(x[0] * y[0] + x[1] * y[1]), Wrap32(x[2] * y[2] + x[3] * y[3]),
     Wrap32(x[4] * y[4] + x[5] * y[5]), Wrap32(x[6] * y[6] + x[7] * y[7]),
     Wrap32(x[8] * y[8] + x[9] * y[9]), Wrap32(x[10] * y[10] + x[11] * y[11]),
     Wrap32(x[12] * y[12] + x[13] * y[13]), Wrap32(x[14] * y[14] + x[15] * y[15])]
  }

  /** Horizontal pair sums of two 4-lane registers (`_mm_hadd_epi32`). */
  function Hadd32(a: seq<int>, b: seq<int>): (r: seq<int>)
    requires |a| == |b| == 4
    ensures |r| == 4
  {
    [Wrap32(a[0] + a[1]), Wrap32(a[2] + a[3]), Wrap32(b[0] + b[1]), Wrap32(b[2] + b[3])]
  }

  /** Four products accumulated per 32-bit lane (`vdotq_s32`). */
  function DotLanes(acc: seq<int>, x: seq<int>, y: seq<int>): (r: seq<int>)
    requires |acc| == 4 && |x| == |y| == 16
    ensures |r| == 4
  {
    [Wrap32(acc[0] + (x[0] * y[0] + x[1] * y[1] + x[2] * y[2] + x[3] * y[3])),
     Wrap32(acc[1] + (x[4] * y[4] + x[5] * y[5] + x[6] * y[6] + x[7] * y[7])),
     Wrap32(acc[2] + (x[8] * y[8] + x[9] * y[9] + x[10] * y[10] + x[11] * y[11])),
     Wrap32(acc[3] + (x[12] * y[12] + x[13] * y[13] + x[14] * y[14] + x[15] * y[15]))]
  }

  /** Widening 8-bit products (`vmull_s8`). */
  function Mull8(x: seq<int>, y: seq<int>): (r: seq<int>)
    requires |x| == |y|
    ensures |r| == |x|
  {
    seq(|x|, k requires 0 <= k < |x| => Wrap16(x[k] * y[k]))
  }

  /** Adjacent 16-bit lanes added into 32-bit lanes (`vpadalq_s16`). */
  function Padal(acc: seq<int>, v: seq<int>): (r: seq<int>)
    requires |acc| == 4 && |v| == 8
    ensures |r| == 4
  {
    [Wrap32(acc[0] + (v[0] + v[1])), Wrap32(acc[1] + (v[2] + v[3])),
     Wrap32(acc[2] + (v[4] + v[5])), Wrap32(acc[3] + (v[6] + v[7]))]
  }

  // ---- what the instructions do to sums, when no lane wraps ----

  lemma {:induction false} Add32Sum(u: seq<int>, v: seq<int>, m: int, m': int)
    requires |u| == |v| && Bounded(u, m) && Bounded(v, m') && m + m' <= INT32_MAX
    ensures Bounded(Add32(u, v), m + m') && Sum(Add32(u, v)) == Sum(u) + Sum(v)
    decreases |u|
  {
    if u != [] {
      var n := |u| - 1;
      Add32Sum(u[..n], v[..n], m, m');
      assert Add32(u, v)[..n] == Add32(u[..n], v[..n]);
    }
  }

  lemma Sum4(v: seq<int>)
    requires |v| == 4
    ensures Sum(v) == v[0] + v[1] + v[2] + v[3]
  {
    var v3, v2, v1 := v[..3], v[..2], v[..1];
    assert v3[..2] == v2 && v2[..1] == v1 && v1[..0] == [];
    assert Sum(v1) == v[0];
    assert Sum(v2) == Sum(v1) + v[1];
    assert Sum(v3) == Sum(v2) + v[2];
  }

  lemma Sum8(v: seq<int>)
    requires |v| == 8
    ensures Sum(v) == v[0] + v[1] + v[2] + v[3] + v[4] + v[5] + v[6] + v[7]
  {
    SumConcat(v[..4], v[4..]);
    Sum4(v[..4]);
    Sum4(v[4..]);
    assert v[..4] + v[4..] == v;
  }

  lemma Sum16(v: seq<int>)
    requires |v| == 16
    ensures Sum(v) == v[0] + v[1] + v[2] + v[3] + v[4] + v[5] + v[6] + v[7]
                      + v[8] + v[9] + v[10] + v[11] + v[12] + v[13] + v[14] + v[15]
  {
    SumConcat(v[..8], v[8..]);
    Sum8(v[..8]);
    Sum8(v[8..]);
    assert v[..8] + v[8..] == v;
  }

  lemma {:induction false} ZeroSum(z: seq<int>)
    requires Bounded(z, 0)
    ensures Sum(z) == 0
  {
    if z != [] { ZeroSum(z[..|z| - 1]); }
  }

  /** `_mm256_madd_epi16` and `vdotq_s32` in terms of the sixteen products. */
  lemma ProductLanes(acc: seq<int>, x: seq<int>, y: seq<int>, p: seq<int>)
    requires |acc| == 4 && |x| == |y| == 16 && p == Products(x, y)
    ensures Madd16(x, y) == [Wrap32(p[0] + p[1]), Wrap32(p[2] + p[3]), Wrap32(p[4] + p[5]), Wrap32(p[6] + p[7]),
                             Wrap32(p[8] + p[9]), Wrap32(p[10] + p[11]), Wrap32(p[12] + p[13]), Wrap32(p[14] + p[15])]
    ensures DotLanes(acc, x, y) ==
              [Wrap32(acc[0] + (p[0] + p[1] + p[2] + p[3])), Wrap32(acc[1] + (p[4] + p[5] + p[6] + p[7])),
               Wrap32(acc[2] + (p[8] + p[9] + p[10] + p[11])), Wrap32(acc[3] + (p[12] + p[13] + p[14] + p[15]))]
  {
  }

  lemma Madd16Sum(x: seq<int>, y: seq<int>)
    requires |x| == |y| == 16 && Bounded(x, 128) && Bounded(y, 128)
    ensures Bounded(Madd16(x, y), 32768) && Sum(Madd16(x, y)) == Dot(x, y)
  {
    ProductsBound(x, y);
    ProductLanes([0, 0, 0, 0], x, y, Products(x, y));
    PairLanes(Products(x, y), Madd16(x, y));
  }

  lemma PairLanes(p: seq<int>, r: seq<int>)
    requires |p| == 16 && Bounded(p, 16384)
    requires r == [Wrap32(p[0] + p[1]), Wrap32(p[2] + p[3]), Wrap32(p[4] + p[5]), Wrap32(p[6] + p[7]),
                   Wrap32(p[8] + p[9]), Wrap32(p[10] + p[11]), Wrap32(p[12] + p[13]), Wrap32(p[14] + p[15])]
    ensures Bounded(r, 32768) && Sum(r) == Sum(p)
  {
    Sum8(r);
    Sum16(p);
  }

  lemma DotLanesSum(acc: seq<int>, x: seq<int>, y: seq<int>, m: int)
    requires |acc| == 4 && |x| == |y| == 16 && Bounded(x, 128) && Bounded(y, 128) && Bounded(acc, m)
    requires m + 65536 <= INT32_MAX
    ensures Bounded(DotLanes(acc, x, y), m + 65536) && Sum(DotLanes(acc, x, y)) == Sum(acc) + Dot(x, y)
  {
    var p := Products(x, y);
    ProductsBound(x, y);
    assert |p| == 16 && Sum(p) == Dot(x, y);
    ProductLanes(acc, x, y, p);
    var r := DotLanes(acc, x, y);
    QuadLanes(acc, p, m, r);
  }

  lemma QuadLane(acc: int, p0: int, p1: int, p2: int, p3: int, m: int)
    requires -m <= acc <= m && Bounded([p0, p1, p2, p3], 16384) && m + 65536 <= INT32_MAX
    ensures var r := acc + (p0 + p1 + p2 + p3); Wrap32(r) == r && -(m + 65536) <= r <= m + 65536
  {
    var p := [p0, p1, p2, p3];
    assert -16384 <= p[0] <= 16384 && -16384 <= p[1] <= 16384 && -16384 <= p[2] <= 16384 && -16384 <= p[3] <= 16384;
  }

  lemma QuadLanes(acc: seq<int>, p: seq<int>, m: int, r: seq<int>)
    requires |acc| == 4 && |p| == 16 && Bounded(p, 16384) && Bounded(acc, m) && m + 65536 <= INT32_MAX
    requires r == [Wrap32(acc[0] + (p[0] + p[1] + p[2] + p[3])), Wrap32(acc[1] + (p[4] + p[5] + p[6] + p[7])),
                   Wrap32(acc[2] + (p[8] + p[9] + p[10] + p[11])), Wrap32(acc[3] + (p[12] + p[13] + p[14] + p[15]))]
    ensures Bounded(r, m + 65536) && Sum(r) == Sum(acc) + Sum(p)
  {
    hide Wrap32, Sum;
    QuadLane(acc[0], p[0], p[1], p[2], p[3], m);
    QuadLane(acc[1], p[4], p[5], p[6], p[7], m);
    QuadLane(acc[2], p[8], p[9], p[10], p[11], m);
    QuadLane(acc[3], p[12], p[13], p[14], p[15], m);
    Sum4(r);
    Sum4(acc);
    Sum16(p);
  }

  lemma PadalSum(acc: seq<int>, v: seq<int>, m: int)
    requires |acc| == 4 && |v| == 8 && Bounded(acc, m) && Bounded(v, 16384) && m + 32768 <= INT32_MAX
    ensures Bounded(Padal(acc, v), m + 32768) && Sum(Padal(acc, v)) == Sum(acc) + Sum(v)
  {
    Sum4(Padal(acc, v));
    Sum4(acc);
    Sum8(v);
  }

  lemma Mull8Sum(x: seq<int>, y: seq<int>)
    requires |x| == |y| && Bounded(x, 128) && Bounded(y, 128)
    ensures Bounded(Mull8(x, y), 16384) && Sum(Mull8(x, y)) == Dot(x, y)
  {
    ProductsBound(x, y);
    assert Mull8(x, y) == Products(x, y) by {
      forall k | 0 <= k < |x|
        ensures Mull8(x, y)[k] == Products(x, y)[k]
      {
        assert Products(x, y)[k] == x[k] * y[k];
      }
    }
  }

  // ---- kernels ----

  /** One 32-element step of the AVX2 loop. */
  method StepAvx2(acc: seq<int>, ai: seq<int>, bi: seq<int>, ghost m: nat) returns (r: seq<int>)
    requires |acc| == 8 && |ai| == |bi| == 32 && Bounded(ai, 128) && Bounded(bi, 128)
    requires Bounded(acc, m) && m + 65536 <= INT32_MAX
    ensures |r| == 8 && Bounded(r, m + 65536) && Sum(r) == Sum(acc) + Dot(ai, bi)
  {
    hide Madd16, Add32, Sum, Dot;
    var aLo, aHi := ai[..16], ai[16..];
    var bLo, bHi := bi[..16], bi[16..];
    var pLo := Madd16(aLo, bLo);
    var pHi := Madd16(aHi, bHi);
    Madd16Sum(aLo, bLo);
    Madd16Sum(aHi, bHi);
    Add32Sum(pLo, pHi, 32768, 32768);
    Add32Sum(acc, Add32(pLo, pHi), m, 65536);
    DotConcat(aLo, bLo, aHi, bHi);
    assert aLo + aHi == ai && bLo + bHi == bi;
    r := Add32(acc, Add32(pLo, pHi));
  }

  /** One 16-element step of the NEON loop; `dotProd` selects the build for cores with the
      dot-product extension. */
  method StepNeon(acc: seq<int>, ai: seq<int>, bi: seq<int>, dotProd: bool, ghost m: nat) returns (r: seq<int>)
    requires |acc| == 4 && |ai| == |bi| == 16 && Bounded(ai, 128) && Bounded(bi, 128)
    requires Bounded(acc, m) && m + 65536 <= INT32_MAX
    ensures |r| == 4 && Bounded(r, m + 65536) && Sum(r) == Sum(acc) + Dot(ai, bi)
  {
    if dotProd {
      DotLanesSum(acc, ai, bi, m);
      return DotLanes(acc, ai, bi);
    }
    var lo := Mull8(ai[..8], bi[..8]);
    var hi := Mull8(ai[8..], bi[8..]);
    Mull8Sum(ai[..8], bi[..8]);
    Mull8Sum(ai[8..], bi[8..]);
    DotConcat(ai[..8], bi[..8], ai[8..], bi[8..]);
    assert ai[..8] + ai[8..] == ai && bi[..8] + bi[8..] == bi;
    PadalSum(acc, lo, m);
    r := Padal(acc, lo);
    PadalSum(r, hi, m + 32768);
    r := Padal(r, hi);
  }

  /** The dimensions for which no accumulator can overflow, whatever the inputs. */
  ghost predicate Fits(dim: nat) {
    dim * 16384 <= INT32_MAX
  }

  method DotScalar(a: seq<int8>, b: seq<int8>, dim: nat) returns (acc: int32)
    requires dim <= |a| && dim <= |b| && Fits(dim)
    ensures acc == Dot(a[..dim], b[..dim])
  {
    acc := 0;
    for i := 0 to dim
      invariant acc == Dot(a[..i], b[..i])
    {
      ghost var p := Products(a[..i + 1], b[..i + 1]);
      ProductsBound(a[..i + 1], b[..i + 1]);
      SumBound(p);
      assert p[..i] == Products(a[..i], b[..i]);
      assert p[i] == a[i] as int * b[i] as int;
      acc := acc + a[i] as int * b[i] as int;
    }
  }

  method DotAvx2(a: seq<int8>, b: seq<int8>, dim: nat) returns (result: int32)
    requires dim <= |a| && dim <= |b| && dim % 32 == 0 && Fits(dim)
    ensures result == Dot(a[..dim], b[..dim])
  {
    hide Sum;
    var acc: seq<int> := [0, 0, 0, 0, 0, 0, 0, 0];
    var i := 0;
    ghost var blocks := 0;
    ghost var total := Blocks32(dim);
    ZeroSum(acc);
    ZeroSum(Products(a[..0], b[..0]));
    while i < dim
      invariant 0 <= i == 32 * blocks && blocks <= total
      invariant |acc| == 8 && Bounded(acc, 2048 * i) && Sum(acc) == Dot(a[..i], b[..i])
    {
      var ai, bi := a[i..i + 32], b[i..i + 32];
      DotBlock(a, b, i, 32);
      acc := StepAvx2(acc, ai, bi, 2048 * i);
      i, blocks := i + 32, blocks + 1;
    }
    result := ReduceAvx2(acc, 2048 * dim);
  }

  /** The horizontal reduction: halves added, then two horizontal pair sums. */
  method ReduceAvx2(acc: seq<int>, ghost m: nat) returns (result: int32)
    requires |acc| == 8 && Bounded(acc, m) && 8 * m <= INT32_MAX
    ensures result == Sum(acc)
  {
    var lo, hi := acc[..4], acc[4..];
    var sum := Add32(lo, hi);
    Add32Sum(lo, hi, m, m);
    Sum4(sum);
    SumConcat(lo, hi);
    assert lo + hi == acc;
    sum := Hadd32(sum, sum);
    sum := Hadd32(sum, sum);
    result := sum[0];
  }

  /** The four lanes added one after the other, each partial sum an int32. */
  method ReduceNeon(acc: seq<int>, ghost m: nat) returns (result: int32)
    requires |acc| == 4 && Bounded(acc, m) && 4 * m <= INT32_MAX
    ensures result == Sum(acc)
  {
    Sum4(acc);
    result := acc[0];
    result := result + acc[1];
    result := result + acc[2];
    result := result + acc[3];
  }

  /** `dotProd` selects the build for cores with the dot-product extension. */
  method DotNeon(a: seq<int8>, b: seq<int8>, dim: nat, dotProd: bool) returns (result: int32)
    requires dim <= |a| && dim <= |b| && dim % 16 == 0 && Fits(dim)
    ensures result == Dot(a[..dim], b[..dim])
  {
    hide Sum;
    var acc: seq<int> := [0, 0, 0, 0];
    var i := 0;
    ghost var blocks := 0;
    ghost var total := Blocks16(dim);
    ZeroSum(acc);
    ZeroSum(Products(a[..0], b[..0]));
    while i < dim
      invariant 0 <= i == 16 * blocks && blocks <= total
      invariant |acc| == 4 && Bounded(acc, 4096 * i) && Sum(acc) == Dot(a[..i], b[..i])
    {
      var ai, bi := a[i..i + 16], b[i..i + 16];
      DotBlock(a, b, i, 16);
      acc := StepNeon(acc, ai, bi, dotProd, 4096 * i);
      i, blocks := i + 16, blocks + 1;
    }
    result := ReduceNeon(acc, 4096 * dim);
  }

  /** The kernel a build and machine select. */
  datatype Target = Avx2 | Neon(dotProd: bool) | Scalar

  /** The dispatcher: every target computes the same integer. */
  method DotDispatch(target: Target, a: seq<int8>, b: seq<int8>, dim: nat) returns (result: int32)
    requires dim <= |a| && dim <= |b| && dim % 32 == 0 && Fits(dim)
    ensures result == Dot(a[..dim], b[..dim])
  {
    HalfStride(dim);
    match target {
      case Avx2 => result := DotAvx2(a, b, dim);
      case Neon(dotProd) => result := DotNeon(a, b, dim, dotProd);
      case Scalar => result := DotScalar(a, b, dim);
    }
  }

  lemma {:induction false} ConstantSum(v: seq<int>, c: int)
    requires forall k :: 0 <= k < |v| ==> v[k] == c
    ensures Sum(v) == |v| * c
    decreases |v|
  {
    if v != [] {
      ConstantSum(v[..|v| - 1], c);
      assert |v| * c == (|v| - 1) * c + c;
    }
  }

  ghost predicate InRange(a: seq<int8>, b: seq<int8>) {
    |a| == |b| ==> -INT32_MAX - 1 <= Dot(a, b) <= INT32_MAX
  }

  /** `Fits` is exact: one more element and two vectors of -128 overflow the 32-bit result. */
  lemma FitsExactly(dim: nat)
    ensures (forall a: seq<int8>, b: seq<int8> :: |a| == |b| == dim ==> InRange(a, b)) <==> Fits(dim)
  {
    if Fits(dim) {
      forall a: seq<int8>, b: seq<int8> | |a| == |b| == dim
        ensures InRange(a, b)
      {
        ProductsBound(a, b);
        SumBound(Products(a, b));
      }
    } else {
      var a: seq<int8> := seq(dim, _ => -128);
      assert forall k :: 0 <= k < dim ==> Products(a, a)[k] == 16384;
      ConstantSum(Products(a, a), 16384);
      assert !InRange(a, a);
    }
  }
}
