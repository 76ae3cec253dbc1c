/** Packing ragged per-function arrays into flat strided buffers. */
module FlatCorpus {
  import opened Options
  import opened Ints

  /** A function descriptor as its setters leave it: index and weight arrays are set together and
      have one length; the RI vector may be unset. */
  datatype Func = Func(filePath: string, tfidf: Option<Tfidf>, riVec: Option<seq<real>>)

  datatype RawTfidf = Tfidf(indices: seq<int>, weights: seq<real>)
  type Tfidf = t: RawTfidf | |t.indices| == |t.weights| witness Tfidf([], [])

  function TfidfLen(f: Func): nat {
    if f.tfidf.Some? then |f.tfidf.value.indices| else 0
  }

  // ---- rows ----

  /** The rows of the three buffers; an unset array contributes nothing. */
  function IndexRow(f: Func): seq<int> { if f.tfidf.Some? then f.tfidf.value.indices else [] }
  function WeightRow(f: Func): seq<real> { if f.tfidf.Some? then f.tfidf.value.weights else [] }
  function RiRow(f: Func, dim: nat): (r: seq<real>)
    ensures |r| <= dim
  {
    match f.riVec
    case None => []
    case Some(v) => if |v| <= dim then v else v[..dim]
  }

  function Fill<T>(zero: T, n: nat): (r: seq<T>)
    ensures |r| == n && forall k :: 0 <= k < n ==> r[k] == zero
  {
    seq(n, _ => zero)
  }

  /** Rows laid end to end, each padded with `zero` to `stride` elements. */
  ghost function Pack<T>(rows: seq<seq<T>>, stride: nat, zero: T): (r: seq<T>)
    requires forall f :: 0 <= f < |rows| ==> |rows[f]| <= stride
    ensures |r| == |rows| * stride
  {
    if rows == [] then []
    else
      var n := |rows| - 1;
      Times(n, stride);
      Pack(rows[..n], stride, zero) + rows[n] + Fill(zero, stride - |rows[n]|)
  }

  lemma Times(n: nat, stride: nat)
    ensures (n + 1) * stride == n * stride + stride
  {
  }

  lemma {:induction false} TimesMono(m: nat, n: nat, stride: nat)
    requires m <= n
    ensures m * stride <= n * stride
    decreases n
  {
    if m < n {
      Times(n - 1, stride);
      TimesMono(m, n - 1, stride);
    }
  }

  /** A packed buffer is the packed rows before the last one, then the last row, then padding. */
  lemma PackEnds<T>(rows: seq<seq<T>>, stride: nat, zero: T, n: nat)
    requires |rows| == n + 1 && forall k :: 0 <= k < |rows| ==> |rows[k]| <= stride
    ensures var p, q := Pack(rows, stride, zero), Pack(rows[..n], stride, zero);
            && |q| <= |p| && p[..|q|] == q && p[|q|..] == rows[n] + Fill(zero, stride - |rows[n]|)
  {
  }

  lemma SliceOfPrefix<T>(p: seq<T>, q: seq<T>, lo: nat, hi: nat)
    requires lo <= hi <= |q| <= |p| && p[..|q|] == q
    ensures p[lo..hi] == q[lo..hi]
  {
    forall k | lo <= k < hi
      ensures p[k] == q[k]
    {
      assert p[..|q|][k] == p[k];
    }
  }

  /** Reading row f of a packed buffer up to the row's own length gives the row back, and the rest
      of the stride is padding: rows neither overlap nor leak into each other. */
  lemma {:induction false} PackedRow<T>(rows: seq<seq<T>>, stride: nat, zero: T, f: nat)
    requires f < |rows| && forall k :: 0 <= k < |rows| ==> |rows[k]| <= stride
    ensures (f + 1) * stride <= |rows| * stride && f * stride + stride == (f + 1) * stride
    ensures var p := Pack(rows, stride, zero);
            p[f * stride..(f + 1) * stride] == rows[f] + Fill(zero, stride - |rows[f]|)
    decreases |rows|
  {
    var n := |rows| - 1;
    hide Pack, Fill;
    Times(n, stride);
    Times(f, stride);
    TimesMono(f + 1, n + 1, stride);
    PackEnds(rows, stride, zero, n);
    var p, q := Pack(rows, stride, zero), Pack(rows[..n], stride, zero);
    if f < n {
      PackedRow(rows[..n], stride, zero, f);
      TimesMono(f + 1, n, stride);
      SliceOfPrefix(p, q, f * stride, (f + 1) * stride);
    } else {
      assert p[n * stride..(n + 1) * stride] == p[n * stride..];
    }
  }

  // ---- extraction ----

  class Flat {
    const allWeights: array<real>
    const allIndices: array<int>
    const tfidfLens: array<nat>
    const allRiVecs: array<real>
    const filePaths: array<string>
    const maxTokens: nat

    constructor (allWeights: array<real>, allIndices: array<int>, tfidfLens: array<nat>, allRiVecs: array<real>,
                 filePaths: array<string>, maxTokens: nat)
      ensures this.allWeights == allWeights && this.allIndices == allIndices && this.tfidfLens == tfidfLens
      ensures this.allRiVecs == allRiVecs && this.filePaths == filePaths && this.maxTokens == maxTokens
    {
      this.allWeights, this.allIndices, this.tfidfLens := allWeights, allIndices, tfidfLens;
      this.allRiVecs, this.filePaths, this.maxTokens := allRiVecs, filePaths, maxTokens;
    }
  }

  /** `System.arraycopy` of a whole array to position `pos`. */
  method ArrayCopy<T>(src: seq<T>, dst: array<T>, pos: nat)
    requires pos + |src| <= dst.Length
    modifies dst
    ensures dst[..] == old(dst[..])[..pos] + src + old(dst[..])[pos + |src|..]
  {
    forall k | 0 <= k < |src| {
      dst[pos + k] := src[k];
    }
  }

  /** The first f rows are in place and the rest of the buffer is still zero. */
  ghost predicate Filled<T>(buf: seq<T>, rows: seq<seq<T>>, f: nat, stride: nat, zero: T) {
    && f <= |rows| && (forall k :: 0 <= k < |rows| ==> |rows[k]| <= stride)
    && |buf| == |rows| * stride && f * stride <= |buf|
    && buf == Pack(rows[..f], stride, zero) + Fill(zero, |buf| - f * stride)
  }

  lemma FilledStart<T>(buf: seq<T>, rows: seq<seq<T>>, stride: nat, zero: T)
    requires |buf| == |rows| * stride && forall k :: 0 <= k < |rows| ==> |rows[k]| <= stride
    requires forall k :: 0 <= k < |buf| ==> buf[k] == zero
    ensures Filled(buf, rows, 0, stride, zero)
  {
    assert rows[..0] == [];
    assert 0 * stride == 0;
  }

  lemma FilledEnd<T>(buf: seq<T>, rows: seq<seq<T>>, stride: nat, zero: T)
    requires Filled(buf, rows, |rows|, stride, zero)
    ensures buf == Pack(rows, stride, zero)
  {
    assert rows[..|rows|] == rows;
  }

  /** Row f copied behind the rows already there. */
  method PutRow<T>(ghost rows: seq<seq<T>>, row: seq<T>, f: nat, stride: nat, ghost zero: T, dst: array<T>)
    requires f < |rows| && row == rows[f] && Filled(dst[..], rows, f, stride, zero) && dst.Length <= INT_MAX
    modifies dst
    ensures 0 <= f * stride <= f * stride + |rows[f]| <= dst.Length <= INT_MAX
    ensures Filled(dst[..], rows, f + 1, stride, zero)
  {
    Times(f, stride);
    TimesMono(f + 1, |rows|, stride);
    ghost var p, rest := Pack(rows[..f], stride, zero), dst.Length - f * stride;
    assert rows[..f + 1][..f] == rows[..f];
    ArrayCopy(row, dst, f * stride);
    assert dst[..] == p + rows[f] + Fill(zero, rest - |rows[f]|);
    assert Fill(zero, rest - |rows[f]|) == Fill(zero, stride - |rows[f]|) + Fill(zero, rest - stride);
  }

  ghost function IndexRows(funcs: seq<Func>): seq<seq<int>> {
    seq(|funcs|, k requires 0 <= k < |funcs| => IndexRow(funcs[k]))
  }

  ghost function WeightRows(funcs: seq<Func>): seq<seq<real>> {
    seq(|funcs|, k requires 0 <= k < |funcs| => WeightRow(funcs[k]))
  }

  ghost function RiRows(funcs: seq<Func>, dim: nat): seq<seq<real>> {
    seq(|funcs|, k requires 0 <= k < |funcs| => RiRow(funcs[k], dim))
  }

  ghost function Lens(funcs: seq<Func>): seq<nat> {
    seq(|funcs|, k requires 0 <= k < |funcs| => TfidfLen(funcs[k]))
  }

  ghost function Paths(funcs: seq<Func>): seq<string> {
    seq(|funcs|, k requires 0 <= k < |funcs| => funcs[k].filePath)
  }

  /** Every index and weight row fits a stride of `m` elements. */
  ghost predicate FitsIn(funcs: seq<Func>, m: nat) {
    forall k :: 0 <= k < |funcs| ==> TfidfLen(funcs[k]) <= m
  }

  /** The flat buffers hold the packed rows. */
  ghost predicate Packed(funcs: seq<Func>, dim: nat, r: Flat)
    reads r.allWeights, r.allIndices, r.tfidfLens, r.allRiVecs, r.filePaths
  {
    && FitsIn(funcs, r.maxTokens)
    && r.allIndices[..] == Pack(IndexRows(funcs), r.maxTokens, 0)
    && r.allWeights[..] == Pack(WeightRows(funcs), r.maxTokens, 0.0)
    && r.allRiVecs[..] == Pack(RiRows(funcs, dim), dim, 0.0)
    && r.tfidfLens[..] == Lens(funcs) && r.filePaths[..] == Paths(funcs)
  }

  /** The longest index array. */
  method MaxTokens(funcs: seq<Func>) returns (m: nat)
    ensures FitsIn(funcs, m) && (m == 0 || exists k :: 0 <= k < |funcs| && TfidfLen(funcs[k]) == m)
  {
    m := 0;
    for i := 0 to |funcs|
      invariant forall k :: 0 <= k < i ==> TfidfLen(funcs[k]) <= m
      invariant m == 0 || exists k :: 0 <= k < i && TfidfLen(funcs[k]) == m
    {
      if TfidfLen(funcs[i]) > m {
        m := TfidfLen(funcs[i]);
      }
    }
  }

  /** Packs all descriptors, or returns null when a buffer would not fit an int index. */
  method ExtractFlat(funcs: seq<Func>, dim: nat) returns (r: Flat?)
    ensures r != null ==> fresh(r) && Packed(funcs, dim, r) && Longest(funcs, r.maxTokens)
    ensures r != null ==> r.allIndices.Length == r.allWeights.Length <= INT_MAX && r.allRiVecs.Length <= INT_MAX
    ensures r == null <==> TooLarge(funcs, dim)
  {
    hide Pack, FitsIn, TooLarge, IndexRows, WeightRows, RiRows, Lens, Paths;
    var maxTokens := MaxTokens(funcs);
    TooLargeWhen(funcs, dim, maxTokens);
    var n := |funcs|;
    var tfidfTotal := n * maxTokens;
    var riTotal := n * dim;
    if tfidfTotal > INT_MAX || riTotal > INT_MAX {
      return null;
    }
    var allWeights := new real[tfidfTotal](_ => 0.0);
    var allIndices := new int[tfidfTotal](_ => 0);
    var tfidfLens := new nat[n](_ => 0);
    var allRiVecs := new real[riTotal](_ => 0.0);
    var filePaths := new string[n](_ => "");
    FillAll(funcs, dim, maxTokens, allIndices, allWeights, tfidfLens, allRiVecs, filePaths);
    r := new Flat(allWeights, allIndices, tfidfLens, allRiVecs, filePaths, maxTokens);
  }

  /** The lengths and paths of the first f descriptors are in place. */
  ghost predicate Recorded(funcs: seq<Func>, f: nat, lens: seq<nat>, paths: seq<string>) {
    && f <= |funcs| == |lens| == |paths|
    && forall k :: 0 <= k < f ==> lens[k] == TfidfLen(funcs[k]) && paths[k] == funcs[k].filePath
  }

  lemma RecordedStart(funcs: seq<Func>, lens: seq<nat>, paths: seq<string>)
    requires |funcs| == |lens| == |paths|
    ensures Recorded(funcs, 0, lens, paths)
  {
  }

  lemma RecordedEnd(funcs: seq<Func>, lens: seq<nat>, paths: seq<string>)
    requires Recorded(funcs, |funcs|, lens, paths)
    ensures lens == Lens(funcs) && paths == Paths(funcs)
  {
  }

  method Record(funcs: seq<Func>, f: nat, tfidfLens: array<nat>, filePaths: array<string>)
    requires f < |funcs| && Recorded(funcs, f, tfidfLens[..], filePaths[..])
    modifies tfidfLens, filePaths
    ensures Recorded(funcs, f + 1, tfidfLens[..], filePaths[..])
  {
    filePaths[f] := funcs[f].filePath;
    tfidfLens[f] := TfidfLen(funcs[f]);
  }

  lemma RowsFit(funcs: seq<Func>, dim: nat, m: nat)
    requires FitsIn(funcs, m)
    ensures forall k :: 0 <= k < |funcs| ==>
              |IndexRow(funcs[k])| <= m && |WeightRow(funcs[k])| <= m && |RiRow(funcs[k], dim)| <= dim
    ensures forall k :: 0 <= k < |funcs| ==>
              |IndexRows(funcs)[k]| <= m && |WeightRows(funcs)[k]| <= m && |RiRows(funcs, dim)[k]| <= dim
  {
  }

  /** The loop over the descriptors. */
  method FillAll(funcs: seq<Func>, dim: nat, maxTokens: nat, allIndices: array<int>, allWeights: array<real>,
                 tfidfLens: array<nat>, allRiVecs: array<real>, filePaths: array<string>)
    requires FitsIn(funcs, maxTokens) && allWeights != allRiVecs
    requires tfidfLens.Length == filePaths.Length == |funcs|
    requires allIndices.Length == allWeights.Length == |funcs| * maxTokens <= INT_MAX
    requires allRiVecs.Length == |funcs| * dim <= INT_MAX
    requires forall k :: 0 <= k < allIndices.Length ==> allIndices[k] == 0 && allWeights[k] == 0.0
    requires forall k :: 0 <= k < allRiVecs.Length ==> allRiVecs[k] == 0.0
    modifies allIndices, allWeights, tfidfLens, allRiVecs, filePaths
    ensures allIndices[..] == Pack(IndexRows(funcs), maxTokens, 0)
    ensures allWeights[..] == Pack(WeightRows(funcs), maxTokens, 0.0)
    ensures allRiVecs[..] == Pack(RiRows(funcs, dim), dim, 0.0)
    ensures tfidfLens[..] == Lens(funcs) && filePaths[..] == Paths(funcs)
  {
    ghost var idx, w, ri := IndexRows(funcs), WeightRows(funcs), RiRows(funcs, dim);
    RowsFit(funcs, dim, maxTokens);
    hide Filled, Pack, IndexRow, WeightRow, RiRow, FitsIn, Recorded, Lens, Paths;
    RecordedStart(funcs, tfidfLens[..], filePaths[..]);
    FilledStart(allIndices[..], idx, maxTokens, 0);
    FilledStart(allWeights[..], w, maxTokens, 0.0);
    FilledStart(allRiVecs[..], ri, dim, 0.0);
    for f := 0 to |funcs|
      invariant Filled(allIndices[..], idx, f, maxTokens, 0)
      invariant Filled(allWeights[..], w, f, maxTokens, 0.0)
      invariant Filled(allRiVecs[..], ri, f, dim, 0.0)
      invariant Recorded(funcs, f, tfidfLens[..], filePaths[..])
    {
      Record(funcs, f, tfidfLens, filePaths);
      PutFunc(idx, w, ri, funcs[f], f, dim, maxTokens, allIndices, allWeights, allRiVecs);
    }
    RecordedEnd(funcs, tfidfLens[..], filePaths[..]);
    FilledEnd(allIndices[..], idx, maxTokens, 0);
    FilledEnd(allWeights[..], w, maxTokens, 0.0);
    FilledEnd(allRiVecs[..], ri, dim, 0.0);
  }

  /** The three copies of one descriptor. */
  method PutFunc(ghost idx: seq<seq<int>>, ghost w: seq<seq<real>>, ghost ri: seq<seq<real>>, fd: Func, f: nat,
                 dim: nat, maxTokens: nat, allIndices: array<int>, allWeights: array<real>, allRiVecs: array<real>)
    requires f < |idx| == |w| == |ri| && allWeights != allRiVecs
    requires idx[f] == IndexRow(fd) && w[f] == WeightRow(fd) && ri[f] == RiRow(fd, dim)
    requires allIndices.Length <= INT_MAX && allWeights.Length <= INT_MAX && allRiVecs.Length <= INT_MAX
    requires Filled(allIndices[..], idx, f, maxTokens, 0) && Filled(allWeights[..], w, f, maxTokens, 0.0)
    requires Filled(allRiVecs[..], ri, f, dim, 0.0)
    modifies allIndices, allWeights, allRiVecs
    ensures Filled(allIndices[..], idx, f + 1, maxTokens, 0) && Filled(allWeights[..], w, f + 1, maxTokens, 0.0)
    ensures Filled(allRiVecs[..], ri, f + 1, dim, 0.0)
  {
    hide Filled, IndexRow, WeightRow, RiRow;
    PutRow(idx, IndexRow(fd), f, maxTokens, 0, allIndices);
    PutRow(w, WeightRow(fd), f, maxTokens, 0.0, allWeights);
    PutRow(ri, RiRow(fd, dim), f, dim, 0.0, allRiVecs);
  }

  /** A packed buffer would have more elements than an int can index. */
  ghost predicate TooLarge(funcs: seq<Func>, dim: nat) {
    |funcs| * dim > INT_MAX || exists m: nat :: Longest(funcs, m) && |funcs| * m > INT_MAX
  }

  ghost predicate Longest(funcs: seq<Func>, m: nat) {
    FitsIn(funcs, m) && (m == 0 || exists k :: 0 <= k < |funcs| && TfidfLen(funcs[k]) == m)
  }

  lemma TooLargeWhen(funcs: seq<Func>, dim: nat, m: nat)
    requires Longest(funcs, m)
    ensures TooLarge(funcs, dim) <==> |funcs| * dim > INT_MAX || |funcs| * m > INT_MAX
  {
  }

  /** The stride of function f begins with `row`, and the rest of it is padding. */
  ghost predicate StrideHolds<T>(buf: seq<T>, stride: nat, f: nat, row: seq<T>, zero: T) {
    && 0 <= f * stride <= f * stride + |row| <= f * stride + stride <= |buf|
    && buf[f * stride..f * stride + |row|] == row
    && forall x :: f * stride + |row| <= x < f * stride + stride ==> buf[x] == zero
  }

  lemma ReadRow<T>(rows: seq<seq<T>>, stride: nat, zero: T, buf: seq<T>, f: nat)
    requires f < |rows| && (forall k :: 0 <= k < |rows| ==> |rows[k]| <= stride) && buf == Pack(rows, stride, zero)
    ensures StrideHolds(buf, stride, f, rows[f], zero)
  {
    hide Pack, Fill;
    PackedRow(rows, stride, zero, f);
    SplitSlice(buf, f * stride, rows[f], Fill(zero, stride - |rows[f]|), zero);
  }

  lemma SplitSlice<T>(buf: seq<T>, lo: nat, row: seq<T>, rest: seq<T>, zero: T)
    requires lo + |row| + |rest| <= |buf| && buf[lo..lo + |row| + |rest|] == row + rest
    requires forall k :: 0 <= k < |rest| ==> rest[k] == zero
    ensures buf[lo..lo + |row|] == row
    ensures forall x :: lo + |row| <= x < lo + |row| + |rest| ==> buf[x] == zero
  {
    var all := buf[lo..lo + |row| + |rest|];
    assert buf[lo..lo + |row|] == all[..|row|];
    forall x | lo + |row| <= x < lo + |row| + |rest|
      ensures buf[x] == zero
    {
      assert buf[x] == all[x - lo] == rest[x - lo - |row|];
    }
  }

  /** What the rows, lengths and paths of function f are, on its own fields. */
  lemma RowsAre(funcs: seq<Func>, dim: nat, f: nat)
    requires f < |funcs|
    ensures match funcs[f].tfidf
            case Some(t) =>
              && IndexRows(funcs)[f] == t.indices && WeightRows(funcs)[f] == t.weights
              && Lens(funcs)[f] == |t.indices| == |t.weights|
            case None => IndexRows(funcs)[f] == [] && WeightRows(funcs)[f] == [] && Lens(funcs)[f] == 0
    ensures match funcs[f].riVec
            case Some(v) => RiRows(funcs, dim)[f] == if |v| <= dim then v else v[..dim]
            case None => RiRows(funcs, dim)[f] == []
    ensures Paths(funcs)[f] == funcs[f].filePath
  {
  }

  /** Lossless: up to the recorded length every function's stride holds the index and weight arrays its
      setter was given, and then padding. */
  lemma Lossless(funcs: seq<Func>, dim: nat, r: Flat, f: nat)
    requires Packed(funcs, dim, r) && f < |funcs|
    ensures match funcs[f].tfidf
            case Some(t) =>
              && r.tfidfLens[..][f] == |t.indices| == |t.weights|
              && StrideHolds(r.allIndices[..], r.maxTokens, f, t.indices, 0)
              && StrideHolds(r.allWeights[..], r.maxTokens, f, t.weights, 0.0)
            case None =>
              && r.tfidfLens[..][f] == 0
              && StrideHolds(r.allIndices[..], r.maxTokens, f, [], 0)
              && StrideHolds(r.allWeights[..], r.maxTokens, f, [], 0.0)
    ensures r.filePaths[..][f] == funcs[f].filePath
  {
    RowsAre(funcs, dim, f);
    hide StrideHolds, Pack, FitsIn, IndexRow, WeightRow, TfidfLen, Lens, Paths;
    TfidfStrides(funcs, r.maxTokens, r.allIndices[..], r.allWeights[..], f);
  }

  lemma TfidfStrides(funcs: seq<Func>, stride: nat, idx: seq<int>, w: seq<real>, f: nat)
    requires f < |funcs| && FitsIn(funcs, stride)
    requires idx == Pack(IndexRows(funcs), stride, 0) && w == Pack(WeightRows(funcs), stride, 0.0)
    ensures StrideHolds(idx, stride, f, IndexRows(funcs)[f], 0)
    ensures StrideHolds(w, stride, f, WeightRows(funcs)[f], 0.0)
  {
    hide Pack, StrideHolds;
    ReadRow(IndexRows(funcs), stride, 0, idx, f);
    ReadRow(WeightRows(funcs), stride, 0.0, w, f);
  }

  /** The RI stride of function f holds the first elements of its RI vector, as many as there are
      below the active dimension, and then zeros; it is the whole vector exactly when that has the
      active dimension. */
  lemma RiLossless(funcs: seq<Func>, dim: nat, r: Flat, f: nat)
    requires Packed(funcs, dim, r) && f < |funcs|
    ensures match funcs[f].riVec
            case Some(v) => StrideHolds(r.allRiVecs[..], dim, f, v[..if |v| < dim then |v| else dim], 0.0)
            case None => StrideHolds(r.allRiVecs[..], dim, f, [], 0.0)
    ensures 0 <= f * dim <= f * dim + dim <= |r.allRiVecs[..]|
    ensures funcs[f].riVec.Some? ==>
              (r.allRiVecs[..][f * dim..f * dim + dim] == funcs[f].riVec.value <==> |funcs[f].riVec.value| == dim)
  {
    hide Pack, FitsIn;
    RiStride(funcs, dim, r.allRiVecs[..], f);
  }

  lemma RiStride(funcs: seq<Func>, dim: nat, buf: seq<real>, f: nat)
    requires f < |funcs| && buf == Pack(RiRows(funcs, dim), dim, 0.0)
    ensures match funcs[f].riVec
            case Some(v) => StrideHolds(buf, dim, f, v[..if |v| < dim then |v| else dim], 0.0)
            case None => StrideHolds(buf, dim, f, [], 0.0)
  {
    RowsAre(funcs, dim, f);
    if v :| funcs[f].riVec == Some(v) && |v| <= dim { assert v[..|v|] == v; }
    hide Pack, RiRow, StrideHolds;
    ReadRow(RiRows(funcs, dim), dim, 0.0, buf, f);
  }
}
