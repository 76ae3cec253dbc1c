/** The float-to-int8 quantizers: scalar, AVX2 and NEON. */
module Quantize {
  import opened Lanes

  /** A binary32 value; the two zeros are one value here, as every use below treats them alike. */
  datatype F32 = NaN | PosInf | NegInf | Finite(r: real)

  /** The rounded product by 127, shared by the three quantizers; any function will do. */
  type Scale = F32 -> F32

  /** Round to nearest, ties to even (section 4.3.1 of IEEE 754-2019). */
  function Nearest(x: real): (r: int)
    ensures -0.5 <= x - r as real <= 0.5
  {
    var f := x.Floor;
    var d := x - f as real;
    if d < 0.5 then f else if d > 0.5 then f + 1 else if f % 2 == 0 then f else f + 1
  }

  lemma NearestWithin(x: real)
    requires -127.0 <= x <= 127.0
    ensures -127 <= Nearest(x) <= 127
  {
  }

  // ---- float comparison, as C and the vector instructions define it ----

  predicate Less(x: F32, y: F32) {
    match (x, y)
    case (NaN, _) => false
    case (_, NaN) => false
    case (Finite(a), Finite(b)) => a < b
    case (NegInf, _) => !y.NegInf?
    case (_, PosInf) => !x.PosInf?
    case _ => false
  }

  predicate Eq(x: F32, y: F32) {
    !x.NaN? && x == y
  }

  const ZERO: F32 := Finite(0.0)
  const LO: F32 := Finite(-127.0)
  const HI: F32 := Finite(127.0)

  // ---- scalar ----

  /** The scalar loop's body: not finite becomes 0, then clamp, then round. */
  function QuantizeOne(v: F32): (q: int8)
    ensures -127 <= q <= 127
  {
    var v1 := if !v.Finite? then ZERO else v;
    var v2 := if Less(HI, v1) then HI else v1;
    var v3 := if Less(v2, LO) then LO else v2;
    NearestWithin(v3.r);
    Nearest(v3.r)
  }

  function Distance(x: real, n: int): real {
    if x < n as real then n as real - x else x - n as real
  }

  /** What the scalar quantizer stores, independently of how: 0 for a value that is not finite, and
      otherwise the integer of [-127, 127] closest to the value, the even one when two are. */
  lemma QuantizeOneIsClosest(v: F32, n: int)
    requires -127 <= n <= 127
    ensures !v.Finite? ==> QuantizeOne(v) == 0
    ensures v.Finite? ==> Distance(v.r, QuantizeOne(v)) <= Distance(v.r, n)
    ensures v.Finite? && n != QuantizeOne(v) && Distance(v.r, n) == Distance(v.r, QuantizeOne(v)) ==>
              QuantizeOne(v) % 2 == 0
  {
    if v.Finite? {
      if v.r > 127.0 {
        NearestInteger(127.0, 127);
        BeyondEnd(v.r, n);
      } else if v.r < -127.0 {
        NearestInteger(-127.0, -127);
        BeyondEnd(v.r, n);
      } else {
        assert QuantizeOne(v) == Nearest(v.r);
        RoundedIsClosest(v.r, Nearest(v.r), n);
      }
    }
  }

  lemma NearestInteger(x: real, n: int)
    requires x == n as real
    ensures Nearest(x) == n
  {
  }

  lemma BeyondEnd(x: real, n: int)
    requires -127 <= n <= 127
    ensures x > 127.0 ==> Distance(x, 127) <= Distance(x, n) && (n != 127 ==> Distance(x, 127) < Distance(x, n))
    ensures x < -127.0 ==> Distance(x, -127) <= Distance(x, n) && (n != -127 ==> Distance(x, -127) < Distance(x, n))
  {
    if n < 127 { assert n as real < 127.0; }
    if n > -127 { assert n as real > -127.0; }
  }

  lemma RoundedIsClosest(x: real, r: int, n: int)
    requires -0.5 <= x - r as real <= 0.5
    ensures Distance(x, r) <= 0.5 && (n != r ==> Distance(x, n) >= 0.5)
  {
    if n < r { assert n as real <= r as real - 1.0; }
    if n > r { assert n as real >= r as real + 1.0; }
  }

  /** The quantized elements of `src`, in order. */
  ghost function Quantized(src: seq<F32>, scale: Scale): (r: seq<int8>)
    ensures |r| == |src|
  {
    if src == [] then [] else Quantized(src[..|src| - 1], scale) + [QuantizeOne(scale(src[|src| - 1]))]
  }

  lemma {:induction false} QuantizedConcat(u: seq<F32>, v: seq<F32>, scale: Scale)
    ensures Quantized(u + v, scale) == Quantized(u, scale) + Quantized(v, scale)
    decreases |v|
  {
    if v == [] {
      assert u + v == u;
    } else {
      assert (u + v)[..|u + v| - 1] == u + v[..|v| - 1];
      QuantizedConcat(u, v[..|v| - 1], scale);
    }
  }

  /** Element k of the result depends on element k of the input alone. */
  lemma {:induction false} QuantizedAt(src: seq<F32>, scale: Scale, k: nat)
    requires k < |src|
    ensures Quantized(src, scale)[k] == QuantizeOne(scale(src[k]))
    decreases |src|
  {
    if k < |src| - 1 { QuantizedAt(src[..|src| - 1], scale, k); }
  }

  lemma QuantizedSlice(src: seq<F32>, scale: Scale, dim: nat, i: nat, j: nat)
    requires i <= j <= dim <= |src|
    ensures Quantized(src[..dim], scale)[i..j] == Quantized(src[i..j], scale)
  {
    assert src[..dim] == src[..i] + src[i..j] + src[j..dim];
    QuantizedConcat(src[..i] + src[i..j], src[j..dim], scale);
    QuantizedConcat(src[..i], src[i..j], scale);
  }

  /** `out` has received the first `i` bytes of `target` and keeps its other elements. */
  ghost predicate Stored(out: seq<int8>, before: seq<int8>, target: seq<int8>, i: nat)
    requires i <= |target| && i <= |before|
  {
    out == target[..i] + before[i..]
  }

  lemma StoredStart(before: seq<int8>, target: seq<int8>)
    ensures Stored(before, before, target, 0)
  {
  }

  /** A store of the next consecutive bytes. */
  method Store(out: array<int8>, i: nat, bytes: seq<int8>, ghost before: seq<int8>, ghost target: seq<int8>)
    requires i + |bytes| <= out.Length == |before| && i + |bytes| <= |target|
    requires Stored(out[..], before, target, i) && bytes == target[i..i + |bytes|]
    modifies out
    ensures Stored(out[..], before, target, i + |bytes|)
  {
    forall k | 0 <= k < |bytes| {
      out[i + k] := bytes[k];
    }
    assert out[..] == old(out[..])[..i] + bytes + old(out[..])[i + |bytes|..];
    assert target[..i + |bytes|] == target[..i] + bytes;
  }

  /** One iteration of the scalar loop. */
  method StepScalar(out: array<int8>, src: seq<F32>, scale: Scale, dim: nat, i: nat,
                    ghost before: seq<int8>, ghost target: seq<int8>)
    requires i < dim <= |src| && dim <= out.Length == |before|
    requires target == Quantized(src[..dim], scale) && Stored(out[..], before, target, i)
    modifies out
    ensures Stored(out[..], before, target, i + 1)
  {
    var q := ScalarElement(scale(src[i]));
    QuantizedAt(src[..dim], scale, i);
    assert [q] == target[i..i + 1];
    Store(out, i, [q], before, target);
  }

  method QuantizeScalar(out: array<int8>, src: seq<F32>, scale: Scale, dim: nat)
    requires dim <= |src| && dim <= out.Length
    modifies out
    ensures Stored(out[..], old(out[..]), Quantized(src[..dim], scale), dim)
  {
    hide Quantized, Stored;
    ghost var before, target := out[..], Quantized(src[..dim], scale);
    StoredStart(before, target);
    for i := 0 to dim
      invariant Stored(out[..], before, target, i)
    {
      StepScalar(out, src, scale, dim, i, before, target);
    }
  }

  /** The body of the scalar loop after the multiplication, as a sequence of updates of `v`. */
  method ScalarElement(scaled: F32) returns (q: int8)
    ensures q == QuantizeOne(scaled)
  {
    var v := scaled;
    if !v.Finite? {
      v := ZERO;
    }
    if Less(HI, v) {
      v := HI;
    }
    if Less(v, LO) {
      v := LO;
    }
    NearestWithin(v.r);
    q := Nearest(v.r);
  }

  // ---- lane operations ----

  function Map<A, B>(f: A -> B, v: seq<A>): (r: seq<B>)
    ensures |r| == |v| && forall k :: 0 <= k < |v| ==> r[k] == f(v[k])
  {
    seq(|v|, k requires 0 <= k < |v| => f(v[k]))
  }

  /** `_mm256_min_ps` and `_mm256_max_ps` return the second operand when unordered. */
  function MinPs(x: F32, y: F32): F32 { if Less(x, y) then x else y }
  function MaxPs(x: F32, y: F32): F32 { if Less(y, x) then x else y }

  /** `vminq_f32` and `vmaxq_f32` return a NaN operand. */
  function VMin(x: F32, y: F32): F32 { if x.NaN? || y.NaN? then NaN else if Less(x, y) then x else y }
  function VMax(x: F32, y: F32): F32 { if x.NaN? || y.NaN? then NaN else if Less(x, y) then y else x }

  /** `_mm256_cvtps_epi32`: out of range and NaN give the most negative integer. */
  function CvtPs(x: F32): int32 {
    if x.Finite? && -0x8000_0000 <= Nearest(x.r) <= 0x7FFF_FFFF then Nearest(x.r) else -0x8000_0000
  }

  /** `vcvtnq_s32_f32`: saturates, and NaN gives 0. */
  function VCvtn(x: F32): int32 {
    match x
    case NaN => 0
    case PosInf => 0x7FFF_FFFF
    case NegInf => -0x8000_0000
    case Finite(r) =>
      if Nearest(r) > 0x7FFF_FFFF then 0x7FFF_FFFF else if Nearest(r) < -0x8000_0000 then -0x8000_0000 else Nearest(r)
  }

  /** One lane of the AVX2 pipeline up to the 32-bit integer: NaN mask or infinity mask blends in
      zero, then clamp, then convert. */
  function LaneAvx2(v: F32): int32 {
    var nanMask := v.NaN?;
    var infMask := Eq(v, PosInf) || Eq(v, NegInf);
    var blended := if nanMask || infMask then ZERO else v;
    CvtPs(MaxPs(MinPs(blended, HI), LO))
  }

  /** One lane of the NEON pipeline: select where (ordered or infinite) and not infinite. */
  function LaneNeon(v: F32): int32 {
    var finMask := Eq(v, v);
    var infMask := Eq(v, PosInf) || Eq(v, NegInf);
    var selected := if (finMask || infMask) && !infMask then v else ZERO;
    VCvtn(VMax(VMin(selected, HI), LO))
  }

  lemma LanesAgree(v: F32)
    ensures LaneAvx2(v) == LaneNeon(v) == QuantizeOne(v)
  {
    hide Nearest;
    NearestInteger(0.0, 0);
    NearestInteger(127.0, 127);
    NearestInteger(-127.0, -127);
    if v.Finite? && -127.0 <= v.r <= 127.0 { NearestWithin(v.r); }
  }

  // ---- packing ----

  /** `_mm256_packs_epi32`: saturating, within each 128-bit half. */
  function Packs32(a: seq<int>, b: seq<int>): (r: seq<int>)
    requires |a| == |b| == 8
    ensures |r| == 16
  {
    Map(Sat16, a[..4]) + Map(Sat16, b[..4]) + Map(Sat16, a[4..]) + Map(Sat16, b[4..])
  }

  /** `_mm256_packs_epi16`: saturating, within each 128-bit half. */
  function Packs16(a: seq<int>, b: seq<int>): (r: seq<int8>)
    requires |a| == |b| == 16
    ensures |r| == 32
  {
    Map(Sat8, a[..8]) + Map(Sat8, b[..8]) + Map(Sat8, a[8..]) + Map(Sat8, b[8..])
  }

  /** The `g`-th 32-bit group of a byte vector. */
  function Group(v: seq<int8>, g: nat): (r: seq<int8>)
    requires |v| == 32 && g < 8
    ensures |r| == 4
  {
    v[4 * g..4 * g + 4]
  }

  /** `_mm256_permutevar8x32_epi32`. */
  function Permute(v: seq<int8>, idx: seq<nat>): (r: seq<int8>)
    requires |v| == 32 && |idx| == 8 && forall g :: 0 <= g < 8 ==> idx[g] < 8
    ensures |r| == 32
  {
    Group(v, idx[0]) + Group(v, idx[1]) + Group(v, idx[2]) + Group(v, idx[3])
    + Group(v, idx[4]) + Group(v, idx[5]) + Group(v, idx[6]) + Group(v, idx[7])
  }

  /** `vmovn_s32` and `vmovn_s16` truncate. */
  function NarrowNeon(i0: seq<int>, i1: seq<int>): (r: seq<int8>)
    requires |i0| == |i1| == 4
    ensures |r| == 8
  {
    Map(Wrap8, Map(Wrap16, i0) + Map(Wrap16, i1))
  }

  lemma Packs32Small(a: seq<int>, b: seq<int>)
    requires |a| == |b| == 8 && Bounded(a, 127) && Bounded(b, 127)
    ensures Packs32(a, b) == a[..4] + b[..4] + a[4..] + b[4..]
  {
  }

  lemma Packs16Small(a: seq<int>, b: seq<int>)
    requires |a| == |b| == 16 && Bounded(a, 127) && Bounded(b, 127)
    ensures Packs16(a, b) == a[..8] + b[..8] + a[8..] + b[8..]
  {
  }

  lemma GroupsOf(v: seq<int8>, g: seq<seq<int8>>)
    requires |g| == 8 && forall k :: 0 <= k < 8 ==> |g[k]| == 4
    requires v == g[0] + g[1] + g[2] + g[3] + g[4] + g[5] + g[6] + g[7]
    ensures |v| == 32 && Permute(v, [0, 4, 1, 5, 2, 6, 3, 7]) == g[0] + g[4] + g[1] + g[5] + g[2] + g[6] + g[3] + g[7]
  {
    assert |v| == 32;
    assert Group(v, 0) == g[0] && Group(v, 1) == g[1] && Group(v, 2) == g[2] && Group(v, 3) == g[3];
    assert Group(v, 4) == g[4] && Group(v, 5) == g[5] && Group(v, 6) == g[6] && Group(v, 7) == g[7];
  }

  /** The two packs interleave 128-bit halves and the permutation 0,4,1,5,2,6,3,7 undoes it: four
      registers of small values come out as 32 bytes in order. */
  lemma PackOrder(i0: seq<int8>, i1: seq<int8>, i2: seq<int8>, i3: seq<int8>)
    requires |i0| == |i1| == |i2| == |i3| == 8
    requires Bounded(i0, 127) && Bounded(i1, 127) && Bounded(i2, 127) && Bounded(i3, 127)
    ensures Permute(Packs16(Packs32(i0, i1), Packs32(i2, i3)), [0, 4, 1, 5, 2, 6, 3, 7]) == i0 + i1 + i2 + i3
  {
    var x, y := i0[..4] + i1[..4] + i0[4..] + i1[4..], i2[..4] + i3[..4] + i2[4..] + i3[4..];
    Packs32Small(i0, i1);
    Packs32Small(i2, i3);
    Packs16Small(x, y);
    Regrouped(i0, i1, i2, i3, x, y, Packs16(x, y));
  }

  lemma Regrouped(i0: seq<int8>, i1: seq<int8>, i2: seq<int8>, i3: seq<int8>, x: seq<int8>, y: seq<int8>, p: seq<int8>)
    requires |i0| == |i1| == |i2| == |i3| == 8 && |x| == |y| == 16
    requires x == i0[..4] + i1[..4] + i0[4..] + i1[4..] && y == i2[..4] + i3[..4] + i2[4..] + i3[4..]
    requires p == x[..8] + y[..8] + x[8..] + y[8..]
    ensures |p| == 32 && Permute(p, [0, 4, 1, 5, 2, 6, 3, 7]) == i0 + i1 + i2 + i3
  {
    var g := [i0[..4], i1[..4], i2[..4], i3[..4], i0[4..], i1[4..], i2[4..], i3[4..]];
    assert x[..8] == g[0] + g[1] && x[8..] == g[4] + g[5];
    assert y[..8] == g[2] + g[3] && y[8..] == g[6] + g[7];
    assert p == g[0] + g[1] + g[2] + g[3] + g[4] + g[5] + g[6] + g[7];
    GroupsOf(p, g);
    Rejoined(i0, i1, i2, i3);
  }

  lemma Rejoined(i0: seq<int8>, i1: seq<int8>, i2: seq<int8>, i3: seq<int8>)
    requires |i0| == |i1| == |i2| == |i3| == 8
    ensures i0[..4] + i0[4..] + i1[..4] + i1[4..] + i2[..4] + i2[4..] + i3[..4] + i3[4..] == i0 + i1 + i2 + i3
  {
  }

  lemma NarrowOrder(i0: seq<int8>, i1: seq<int8>)
    requires |i0| == |i1| == 4 && Bounded(i0, 127) && Bounded(i1, 127)
    ensures NarrowNeon(i0, i1) == i0 + i1
  {
  }

  // ---- vector kernels ----

  /** Converting one register of scaled floats gives their quantized values. */
  lemma RegisterIs(lane: F32 -> int32, src: seq<F32>, scale: Scale)
    requires lane == LaneAvx2 || lane == LaneNeon
    ensures Map(lane, Map(scale, src)) == Quantized(src, scale) && Bounded(Quantized(src, scale), 127)
  {
    forall k | 0 <= k < |src|
      ensures Map(lane, Map(scale, src))[k] == Quantized(src, scale)[k] && -127 <= Quantized(src, scale)[k] <= 127
    {
      QuantizedAt(src, scale, k);
      LanesAgree(scale(src[k]));
    }
  }

  /** 32 floats to 32 bytes. */
  method BlockAvx2(v: seq<F32>, scale: Scale) returns (bytes: seq<int8>)
    requires |v| == 32
    ensures bytes == Quantized(v, scale)
  {
    hide Quantized, Map, Permute, Packs16, Packs32, Sat8, Sat16;
    var i0 := Map(LaneAvx2, Map(scale, v[..8]));
    var i1 := Map(LaneAvx2, Map(scale, v[8..16]));
    var i2 := Map(LaneAvx2, Map(scale, v[16..24]));
    var i3 := Map(LaneAvx2, Map(scale, v[24..]));
    RegisterIs(LaneAvx2, v[..8], scale);
    RegisterIs(LaneAvx2, v[8..16], scale);
    RegisterIs(LaneAvx2, v[16..24], scale);
    RegisterIs(LaneAvx2, v[24..], scale);
    ghost var q0, q1 := Quantized(v[..8], scale), Quantized(v[8..16], scale);
    ghost var q2, q3 := Quantized(v[16..24], scale), Quantized(v[24..], scale);
    PackOrder(q0, q1, q2, q3);
    bytes := Permute(Packs16(Packs32(i0, i1), Packs32(i2, i3)), [0, 4, 1, 5, 2, 6, 3, 7]);
    QuantizedQuarters(v, scale);
  }

  lemma QuantizedQuarters(v: seq<F32>, scale: Scale)
    requires |v| == 32
    ensures Quantized(v, scale) == Quantized(v[..8], scale) + Quantized(v[8..16], scale)
                                   + Quantized(v[16..24], scale) + Quantized(v[24..], scale)
  {
    QuantizedConcat(v[..8], v[8..16], scale);
    QuantizedConcat(v[..16], v[16..24], scale);
    QuantizedConcat(v[..24], v[24..], scale);
    assert v[..8] + v[8..16] == v[..16] && v[..16] + v[16..24] == v[..24] && v[..24] + v[24..] == v;
  }

  /** 8 floats to 8 bytes. */
  method HalfBlockNeon(v: seq<F32>, scale: Scale) returns (bytes: seq<int8>)
    requires |v| == 8
    ensures bytes == Quantized(v, scale)
  {
    var i0 := Map(LaneNeon, Map(scale, v[..4]));
    var i1 := Map(LaneNeon, Map(scale, v[4..]));
    RegisterIs(LaneNeon, v[..4], scale);
    RegisterIs(LaneNeon, v[4..], scale);
    NarrowOrder(Quantized(v[..4], scale), Quantized(v[4..], scale));
    bytes := NarrowNeon(i0, i1);
    QuantizedConcat(v[..4], v[4..], scale);
    assert v[..4] + v[4..] == v;
  }

  /** One iteration of the AVX2 loop. */
  method StepAvx2(out: array<int8>, src: seq<F32>, scale: Scale, dim: nat, i: nat,
                  ghost before: seq<int8>, ghost target: seq<int8>)
    requires i + 32 <= dim <= |src| && dim <= out.Length == |before|
    requires target == Quantized(src[..dim], scale) && Stored(out[..], before, target, i)
    modifies out
    ensures Stored(out[..], before, target, i + 32)
  {
    var bytes := BlockAvx2(src[i..i + 32], scale);
    QuantizedSlice(src, scale, dim, i, i + 32);
    Store(out, i, bytes, before, target);
  }

  method QuantizeAvx2(out: array<int8>, src: seq<F32>, scale: Scale, dim: nat)
    requires dim <= |src| && dim <= out.Length && dim % 32 == 0
    modifies out
    ensures Stored(out[..], old(out[..]), Quantized(src[..dim], scale), dim)
  {
    hide Quantized, Stored;
    ghost var before, target := out[..], Quantized(src[..dim], scale);
    StoredStart(before, target);
    var i := 0;
    ghost var blocks := 0;
    ghost var total := Blocks32(dim);
    while i < dim
      invariant 0 <= i == 32 * blocks && blocks <= total
      invariant Stored(out[..], before, target, i)
    {
      StepAvx2(out, src, scale, dim, i, before, target);
      i, blocks := i + 32, blocks + 1;
    }
  }

  /** One iteration of the NEON loop: two stores of eight bytes. */
  method StepNeon(out: array<int8>, src: seq<F32>, scale: Scale, dim: nat, i: nat,
                  ghost before: seq<int8>, ghost target: seq<int8>)
    requires i + 16 <= dim <= |src| && dim <= out.Length == |before|
    requires target == Quantized(src[..dim], scale) && Stored(out[..], before, target, i)
    modifies out
    ensures Stored(out[..], before, target, i + 16)
  {
    var b0 := HalfBlockNeon(src[i..i + 8], scale);
    var b1 := HalfBlockNeon(src[i + 8..i + 16], scale);
    QuantizedSlice(src, scale, dim, i, i + 8);
    Store(out, i, b0, before, target);
    QuantizedSlice(src, scale, dim, i + 8, i + 16);
    Store(out, i + 8, b1, before, target);
  }

  method QuantizeNeon(out: array<int8>, src: seq<F32>, scale: Scale, dim: nat)
    requires dim <= |src| && dim <= out.Length && dim % 16 == 0
    modifies out
    ensures Stored(out[..], old(out[..]), Quantized(src[..dim], scale), dim)
  {
    hide Quantized, Stored;
    ghost var before, target := out[..], Quantized(src[..dim], scale);
    StoredStart(before, target);
    var i := 0;
    ghost var blocks := 0;
    ghost var total := Blocks16(dim);
    while i < dim
      invariant 0 <= i == 16 * blocks && blocks <= total
      invariant Stored(out[..], before, target, i)
    {
      StepNeon(out, src, scale, dim, i, before, target);
      i, blocks := i + 16, blocks + 1;
    }
  }

  /** The kernel a build and machine select. */
  datatype Target = Avx2 | Neon | Scalar

  /** The dispatcher: every target stores the same bytes. */
  method QuantizeDispatch(target: Target, out: array<int8>, src: seq<F32>, scale: Scale, dim: nat)
    requires dim <= |src| && dim <= out.Length && dim % 32 == 0
    modifies out
    ensures Stored(out[..], old(out[..]), Quantized(src[..dim], scale), dim)
  {
    HalfStride(dim);
    match target {
      case Avx2 => QuantizeAvx2(out, src, scale, dim);
      case Neon => QuantizeNeon(out, src, scale, dim);
      case Scalar => QuantizeScalar(out, src, scale, dim);
    }
  }
}
