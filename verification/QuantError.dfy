/** How far the quantized dot product is from the real one. */
module QuantError {
  import Lanes
  import DotF32
  import opened Quantize

  /** Multiplication by 127 without rounding. */
  function Exact(x: F32): F32 {
    if x.Finite? then Finite(127.0 * x.r) else x
  }

  function Floats(a: seq<real>): (r: seq<F32>)
    ensures |r| == |a|
  {
    seq(|a|, k requires 0 <= k < |a| => Finite(a[k]))
  }

  ghost predicate UnitBounded(a: seq<real>) {
    forall k :: 0 <= k < |a| ==> -1.0 <= a[k] <= 1.0
  }

  lemma MulAbs(x: real, y: real, m: real, n: real)
    requires -m <= x <= m && -n <= y <= n
    ensures -(m * n) <= x * y <= m * n
  {
    if x >= 0.0 {
      assert x * y <= x * n && x * y >= x * -n;
      assert x * n <= m * n;
    } else {
      assert -x * y <= -x * n && -x * y >= -x * -n;
      assert -x * n <= m * n;
    }
  }

  /** One product: rounding both factors to integers moves it by at most 127. */
  lemma ProductError(x: real, y: real, p: real, q: real)
    requires -127.0 <= x <= 127.0 && -127.0 <= q <= 127.0
    requires -0.5 <= x - p <= 0.5 && -0.5 <= y - q <= 0.5
    ensures -127.0 <= x * y - p * q <= 127.0
  {
    MulAbs(x, y - q, 127.0, 0.5);
    MulAbs(q, x - p, 127.0, 0.5);
    assert x * y - p * q == x * (y - q) + q * (x - p);
  }

  /** A value in [-1, 1] is quantized without clamping. */
  lemma QuantizesToNearest(r: real)
    requires -1.0 <= r <= 1.0
    ensures QuantizeOne(Exact(Finite(r))) == Nearest(127.0 * r)
  {
  }

  /** The difference of the two dot products, scaled up by 127 * 127. */
  ghost function Difference(a: seq<real>, b: seq<real>): real
    requires |a| == |b|
  {
    16129.0 * DotF32.Dot(a, b) - Lanes.Dot(Quantized(Floats(a), Exact), Quantized(Floats(b), Exact)) as real
  }

  lemma DifferenceLast(a: seq<real>, b: seq<real>, n: nat)
    requires |a| == |b| == n + 1
    ensures Difference(a, b) == Difference(a[..n], b[..n]) + TermDifference(a[n], b[n])
  {
    var qa, qb := Quantized(Floats(a), Exact), Quantized(Floats(b), Exact);
    assert Floats(a)[..n] == Floats(a[..n]) && Floats(b)[..n] == Floats(b[..n]);
    assert qa[..n] == Quantized(Floats(a[..n]), Exact) && qb[..n] == Quantized(Floats(b[..n]), Exact);
    DotLast(a, b, n);
    QuantDotLast(qa, qb, n);
  }

  lemma {:induction false} ScaledError(a: seq<real>, b: seq<real>)
    requires |a| == |b| && UnitBounded(a) && UnitBounded(b)
    ensures -127.0 * |a| as real <= Difference(a, b) <= 127.0 * |a| as real
    decreases |a|
  {
    if a == [] {
      assert DotF32.Dot(a, b) == 0.0 && Lanes.Dot(Quantized(Floats(a), Exact), Quantized(Floats(b), Exact)) == 0;
    } else {
      var n := |a| - 1;
      ScaledError(a[..n], b[..n]);
      DifferenceLast(a, b, n);
      TermError(a[n], b[n]);
    }
  }

  ghost function TermDifference(x: real, y: real): real {
    16129.0 * (x * y) - (QuantizeOne(Exact(Finite(x))) as int * QuantizeOne(Exact(Finite(y))) as int) as real
  }

  lemma TermError(x: real, y: real)
    requires -1.0 <= x <= 1.0 && -1.0 <= y <= 1.0
    ensures -127.0 <= TermDifference(x, y) <= 127.0
  {
    hide QuantizeOne, Exact;
    var p: int, q: int := QuantizeOne(Exact(Finite(x))), QuantizeOne(Exact(Finite(y)));
    QuantizesToNearest(x);
    QuantizesToNearest(y);
    ProductError(127.0 * x, 127.0 * y, p as real, q as real);
    Rescale(x, y);
    CastProduct(p, q);
  }

  lemma Rescale(x: real, y: real)
    ensures 127.0 * x * (127.0 * y) == 16129.0 * (x * y)
  {
  }

  lemma CastProduct(p: int, q: int)
    ensures (p * q) as real == p as real * q as real
  {
  }

  lemma DotLast(a: seq<real>, b: seq<real>, n: nat)
    requires |a| == |b| == n + 1
    ensures DotF32.Dot(a, b) == DotF32.Dot(a[..n], b[..n]) + a[n] * b[n]
  {
    DotF32.DotNext(a, b, n);
    assert a[..n + 1] == a && b[..n + 1] == b;
  }

  lemma QuantDotLast(a: seq<int>, b: seq<int>, n: nat)
    requires |a| == |b| == n + 1
    ensures Lanes.Dot(a, b) == Lanes.Dot(a[..n], b[..n]) + a[n] * b[n]
  {
    var p, q := Lanes.Products(a, b), Lanes.Products(a[..n], b[..n]);
    forall x | 0 <= x < n
      ensures p[x] == q[x]
    {
      assert p[x] == a[x] * b[x];
    }
    assert p[..n] == q;
  }

  /** For inputs in [-1, 1] the int8 dot product, scaled back by 127 * 127, is within dim / 127 of
      the real dot product. */
  lemma DotErrorBound(a: seq<real>, b: seq<real>)
    requires |a| == |b| && UnitBounded(a) && UnitBounded(b)
    ensures var error := DotF32.Dot(a, b)
                         - Lanes.Dot(Quantized(Floats(a), Exact), Quantized(Floats(b), Exact)) as real / 16129.0;
            -(|a| as real / 127.0) <= error <= |a| as real / 127.0
  {
    ScaledError(a, b);
  }
}
