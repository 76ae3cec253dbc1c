/** The float dot product and magnitude kernels, over exact reals. */
module DotF32 {
  import Lanes

  ghost function Sum(v: seq<real>): real {
    if v == [] then 0.0 else Sum(v[..|v| - 1]) + v[|v| - 1]
  }

  ghost function Products(a: seq<real>, b: seq<real>): (r: seq<real>)
    requires |a| == |b|
    ensures |r| == |a|
  {
    seq(|a|, k requires 0 <= k < |a| => a[k] * b[k])
  }

  ghost function Dot(a: seq<real>, b: seq<real>): real
    requires |a| == |b|
  {
    Sum(Products(a, b))
  }

  lemma {:induction false} SumConcat(u: seq<real>, v: seq<real>)
    ensures Sum(u + v) == Sum(u) + Sum(v)
    decreases |v|
  {
    if v == [] {
      assert u + v == u;
    } else {
      assert (u + v)[..|u + v| - 1] == u + v[..|v| - 1];
      SumConcat(u, v[..|v| - 1]);
    }
  }

  // ---- instructions ----

  /** Lane-wise addition (`_mm256_add_ps`, `vaddq_f32`, `vadd_f32`). */
  function Add(u: seq<real>, v: seq<real>): (r: seq<real>)
    requires |u| == |v|
    ensures |r| == |u|
  {
    seq(|u|, k requires 0 <= k < |u| => u[k] + v[k])
  }

  /** Lane-wise multiply-accumulate (`_mm256_fmadd_ps`, `vmlaq_f32`). */
  function Fma(x: seq<real>, y: seq<real>, acc: seq<real>): (r: seq<real>)
    requires |x| == |y| == |acc|
    ensures |r| == |acc|
  {
    seq(|acc|, k requires 0 <= k < |acc| => x[k] * y[k] + acc[k])
  }

  /** Horizontal pair sums (`_mm_hadd_ps`). */
  function Hadd(a: seq<real>, b: seq<real>): (r: seq<real>)
    requires |a| == |b| == 4
    ensures |r| == 4
  {
    [a[0] + a[1], a[2] + a[3], b[0] + b[1], b[2] + b[3]]
  }

  /** Horizontal pair sums of two-lane registers (`vpadd_f32`). */
  function Padd(a: seq<real>, b: seq<real>): (r: seq<real>)
    requires |a| == |b| == 2
    ensures |r| == 2
  {
    [a[0] + a[1], b[0] + b[1]]
  }

  lemma {:induction false} AddSum(u: seq<real>, v: seq<real>)
    requires |u| == |v|
    ensures Sum(Add(u, v)) == Sum(u) + Sum(v)
    decreases |u|
  {
    if u != [] {
      var n := |u| - 1;
      AddSum(u[..n], v[..n]);
      assert Add(u, v)[..n] == Add(u[..n], v[..n]);
    }
  }

  lemma FmaSum(x: seq<real>, y: seq<real>, acc: seq<real>)
    requires |x| == |y| == |acc|
    ensures Sum(Fma(x, y, acc)) == Sum(acc) + Dot(x, y)
  {
    AddSum(Products(x, y), acc);
    assert Fma(x, y, acc) == Add(Products(x, y), acc);
  }

  lemma Sum2(v: seq<real>)
    requires |v| == 2
    ensures Sum(v) == v[0] + v[1]
  {
    assert v[..1][..0] == [];
    assert Sum(v[..1]) == v[0];
  }

  lemma Sum4(v: seq<real>)
    requires |v| == 4
    ensures Sum(v) == v[0] + v[1] + v[2] + v[3]
  {
    Sum2(v[..2]);
    Sum2(v[2..]);
    SumConcat(v[..2], v[2..]);
    assert v[..2] + v[2..] == v;
  }

  // ---- four accumulators ----

  datatype Quad = Quad(r0: seq<real>, r1: seq<real>, r2: seq<real>, r3: seq<real>)

  ghost predicate Wide(q: Quad, w: nat) {
    |q.r0| == |q.r1| == |q.r2| == |q.r3| == w
  }

  ghost function Total(q: Quad): real {
    Sum(q.r0) + Sum(q.r1) + Sum(q.r2) + Sum(q.r3)
  }

  method ZeroQuad(w: nat) returns (q: Quad)
    ensures Wide(q, w) && Total(q) == 0.0
  {
    var z := seq(w, _ => 0.0);
    ZeroSum(z);
    q := Quad(z, z, z, z);
  }

  lemma {:induction false} ZeroSum(z: seq<real>)
    requires forall k :: 0 <= k < |z| ==> z[k] == 0.0
    ensures Sum(z) == 0.0
  {
    if z != [] { ZeroSum(z[..|z| - 1]); }
  }

  /** The accumulators hold the dot product of the first `i` elements. */
  ghost predicate Holds(q: Quad, w: nat, a: seq<real>, b: seq<real>, i: int) {
    Wide(q, w) && 0 <= i <= |a| && i <= |b| && Total(q) == Dot(a[..i], b[..i])
  }

  /** The four multiply-accumulates of one loop iteration, `w` lanes each. */
  method Accumulate(q: Quad, a: seq<real>, b: seq<real>, i: nat, w: nat) returns (r: Quad)
    requires Holds(q, w, a, b, i) && i + 4 * w <= |a| && i + 4 * w <= |b|
    ensures Holds(r, w, a, b, i + 4 * w)
  {
    hide Sum, Fma, Dot, Products;
    var i1, i2, i3, i4 := i + w, i + 2 * w, i + 3 * w, i + 4 * w;
    r := Quad(Fma(a[i..i1], b[i..i1], q.r0), Fma(a[i1..i2], b[i1..i2], q.r1),
              Fma(a[i2..i3], b[i2..i3], q.r2), Fma(a[i3..i4], b[i3..i4], q.r3));
    FmaSum(a[i..i1], b[i..i1], q.r0);
    FmaSum(a[i1..i2], b[i1..i2], q.r1);
    FmaSum(a[i2..i3], b[i2..i3], q.r2);
    FmaSum(a[i3..i4], b[i3..i4], q.r3);
    Blocks(a, b, i, i1);
    Blocks(a, b, i1, i2);
    Blocks(a, b, i2, i3);
    Blocks(a, b, i3, i4);
  }

  lemma Blocks(a: seq<real>, b: seq<real>, i: nat, j: nat)
    requires i <= j <= |a| && j <= |b|
    ensures Dot(a[..j], b[..j]) == Dot(a[..i], b[..i]) + Dot(a[i..j], b[i..j])
  {
    var p, q := Products(a[..i], b[..i]), Products(a[i..j], b[i..j]);
    SumConcat(p, q);
    var r := Products(a[..j], b[..j]);
    forall x | 0 <= x < |r|
      ensures r[x] == (p + q)[x]
    {
      assert r[x] == a[x] * b[x];
    }
    assert r == p + q;
  }

  /** AVX2: accumulators added pairwise, halves added, two horizontal pair sums. */
  method ReduceAvx2(q: Quad) returns (result: real)
    requires Wide(q, 8)
    ensures result == Total(q)
  {
    var d := Add(Add(q.r0, q.r1), Add(q.r2, q.r3));
    AddSum(q.r0, q.r1);
    AddSum(q.r2, q.r3);
    AddSum(Add(q.r0, q.r1), Add(q.r2, q.r3));
    var s := Add(d[..4], d[4..]);
    AddSum(d[..4], d[4..]);
    SumConcat(d[..4], d[4..]);
    assert d[..4] + d[4..] == d;
    Sum4(s);
    var h := Hadd(s, s);
    h := Hadd(h, h);
    result := h[0];
  }

  /** NEON: accumulators added pairwise, halves added, one pair sum. */
  method ReduceNeon(q: Quad) returns (result: real)
    requires Wide(q, 4)
    ensures result == Total(q)
  {
    var d := Add(Add(q.r0, q.r1), Add(q.r2, q.r3));
    AddSum(q.r0, q.r1);
    AddSum(q.r2, q.r3);
    AddSum(Add(q.r0, q.r1), Add(q.r2, q.r3));
    var s := Add(d[..2], d[2..]);
    AddSum(d[..2], d[2..]);
    SumConcat(d[..2], d[2..]);
    assert d[..2] + d[2..] == d;
    Sum2(s);
    var p := Padd(s, s);
    result := p[0];
  }

  // ---- kernels ----

  method Mags3Scalar(a: seq<real>, b: seq<real>, dim: nat) returns (dot: real, ma: real, mb: real)
    requires dim <= |a| && dim <= |b|
    ensures dot == Dot(a[..dim], b[..dim]) && ma == Dot(a[..dim], a[..dim]) && mb == Dot(b[..dim], b[..dim])
  {
    dot, ma, mb := 0.0, 0.0, 0.0;
    for i := 0 to dim
      invariant dot == Dot(a[..i], b[..i]) && ma == Dot(a[..i], a[..i]) && mb == Dot(b[..i], b[..i])
    {
      DotNext(a, b, i);
      DotNext(a, a, i);
      DotNext(b, b, i);
      dot := dot + a[i] * b[i];
      ma := ma + a[i] * a[i];
      mb := mb + b[i] * b[i];
    }
  }

  lemma DotNext(a: seq<real>, b: seq<real>, i: nat)
    requires i < |a| && i < |b|
    ensures Dot(a[..i + 1], b[..i + 1]) == Dot(a[..i], b[..i]) + a[i] * b[i]
  {
    var p, q := Products(a[..i + 1], b[..i + 1]), Products(a[..i], b[..i]);
    forall x | 0 <= x < i
      ensures p[x] == q[x]
    {
      assert p[x] == a[x] * b[x];
    }
    assert p[..i] == q;
  }

  /** The elements of so many loop iterations, four `w`-lane registers each. */
  ghost function Stride(w: nat, blocks: nat): nat {
    if w == 8 then 32 * blocks else 16 * blocks
  }

  lemma StrideBlocks(dim: nat, w: nat) returns (total: nat)
    requires (w == 8 || w == 4) && dim % 32 == 0
    ensures dim == Stride(w, total)
  {
    var q := Lanes.Blocks32(dim);
    total := if w == 8 then q else 2 * q;
  }

  lemma HoldsStart(q: Quad, w: nat, a: seq<real>, b: seq<real>)
    requires Wide(q, w) && Total(q) == 0.0
    ensures Holds(q, w, a, b, 0)
  {
  }

  /** The horizontal reduction of the target. */
  method Reduce(q: Quad, w: nat, ghost a: seq<real>, ghost b: seq<real>, ghost dim: nat) returns (result: real)
    requires (w == 8 || w == 4) && Holds(q, w, a, b, dim)
    ensures dim <= |a| && dim <= |b| && result == Dot(a[..dim], b[..dim])
  {
    if w == 8 {
      result := ReduceAvx2(q);
    } else {
      result := ReduceNeon(q);
    }
  }

  /** AVX2 when `w` is 8 and NEON when it is 4: three sets of four accumulators. */
  method Mags3Vector(a: seq<real>, b: seq<real>, dim: nat, w: nat) returns (dot: real, ma: real, mb: real)
    requires (w == 8 || w == 4) && dim <= |a| && dim <= |b| && dim % 32 == 0
    ensures dot == Dot(a[..dim], b[..dim]) && ma == Dot(a[..dim], a[..dim]) && mb == Dot(b[..dim], b[..dim])
  {
    hide Holds, Total, Dot;
    var d := ZeroQuad(w);
    var qa := ZeroQuad(w);
    var qb := ZeroQuad(w);
    HoldsStart(d, w, a, b);
    HoldsStart(qa, w, a, a);
    HoldsStart(qb, w, b, b);
    var i := 0;
    ghost var blocks: nat := 0;
    ghost var total := StrideBlocks(dim, w);
    while i < dim
      invariant 0 <= i == Stride(w, blocks) && blocks <= total
      invariant Holds(d, w, a, b, i) && Holds(qa, w, a, a, i) && Holds(qb, w, b, b, i)
    {
      d := Accumulate(d, a, b, i, w);
      qa := Accumulate(qa, a, a, i, w);
      qb := Accumulate(qb, b, b, i, w);
      i, blocks := i + 4 * w, blocks + 1;
    }
    dot := Reduce(d, w, a, b, dim);
    ma := Reduce(qa, w, a, a, dim);
    mb := Reduce(qb, w, b, b, dim);
  }

  method AddMagBScalar(a: seq<real>, b: seq<real>, dim: nat) returns (dot: real, mb: real)
    requires dim <= |a| && dim <= |b|
    ensures dot == Dot(a[..dim], b[..dim]) && mb == Dot(b[..dim], b[..dim])
  {
    dot, mb := 0.0, 0.0;
    for i := 0 to dim
      invariant dot == Dot(a[..i], b[..i]) && mb == Dot(b[..i], b[..i])
    {
      DotNext(a, b, i);
      DotNext(b, b, i);
      dot := dot + a[i] * b[i];
      mb := mb + b[i] * b[i];
    }
  }

  method AddMagBVector(a: seq<real>, b: seq<real>, dim: nat, w: nat) returns (dot: real, mb: real)
    requires (w == 8 || w == 4) && dim <= |a| && dim <= |b| && dim % 32 == 0
    ensures dot == Dot(a[..dim], b[..dim]) && mb == Dot(b[..dim], b[..dim])
  {
    hide Holds, Total, Dot;
    var d := ZeroQuad(w);
    var m := ZeroQuad(w);
    HoldsStart(d, w, a, b);
    HoldsStart(m, w, b, b);
    var i := 0;
    ghost var blocks: nat := 0;
    ghost var total := StrideBlocks(dim, w);
    while i < dim
      invariant 0 <= i == Stride(w, blocks) && blocks <= total
      invariant Holds(d, w, a, b, i) && Holds(m, w, b, b, i)
    {
      d := Accumulate(d, a, b, i, w);
      m := Accumulate(m, b, b, i, w);
      i, blocks := i + 4 * w, blocks + 1;
    }
    dot := Reduce(d, w, a, b, dim);
    mb := Reduce(m, w, b, b, dim);
  }
}
