/** What a parallel loop does to its context, read off the order of its callback invocations. */
module Effects {

  /** The order `run_serial` uses. */
  function Serial(count: nat): (r: seq<int>)
    ensures |r| == count && forall i :: 0 <= i < count ==> r[i] == i
  {
    seq(count, i => i)
  }

  /** Every index of [0, count) occurs once in `log`, and nothing else occurs. */
  ghost predicate ExactlyOnce(log: seq<int>, count: nat) {
    forall x :: multiset(log)[x] == if 0 <= x < count then 1 else 0
  }

  /** The context after the callback has run on the indices of `log`, in that order. */
  function Fold<C>(f: (int, C) -> C, log: seq<int>, ctx: C): C {
    if log == [] then ctx else f(log[|log| - 1], Fold(f, log[..|log| - 1], ctx))
  }

  /** The callback gets the indices of the log, first to last. */
  lemma {:induction false} FoldFirst<C>(f: (int, C) -> C, x: int, log: seq<int>, ctx: C)
    ensures Fold(f, [], ctx) == ctx && Fold(f, [x] + log, ctx) == Fold(f, log, f(x, ctx))
    decreases |log|
  {
    if log == [] {
      assert ([x] + log)[..0] == [];
    } else {
      assert ([x] + log)[..|log|] == [x] + log[..|log| - 1];
      FoldFirst(f, x, log[..|log| - 1], ctx);
    }
  }

  /** A callback that writes its index down leaves the log itself. */
  lemma {:induction false} FoldTrace(f: (int, seq<int>) -> seq<int>, log: seq<int>, ctx: seq<int>)
    requires forall i, c :: f(i, c) == c + [i]
    ensures Fold(f, log, ctx) == ctx + log
    decreases |log|
  {
    if log != [] {
      FoldTrace(f, log[..|log| - 1], ctx);
      assert ctx + log == ctx + log[..|log| - 1] + [log[|log| - 1]];
    }
  }

  /** Calls on different indices of [0, count) commute. */
  ghost predicate Commutes<C(!new)>(f: (int, C) -> C, count: nat) {
    forall i, j, c :: 0 <= i < count && 0 <= j < count && i != j ==> f(i, f(j, c)) == f(j, f(i, c))
  }

  /** `run_serial`: the callback on 0, 1, ..., count - 1. */
  method RunSerial<C>(count: nat, f: (int, C) -> C, ctx: C) returns (result: C)
    ensures result == Fold(f, Serial(count), ctx)
  {
    result := ctx;
    for i := 0 to count
      invariant result == Fold(f, Serial(count)[..i], ctx)
    {
      result := f(i, result);
      assert Serial(count)[..i + 1][..i] == Serial(count)[..i];
    }
    assert Serial(count)[..count] == Serial(count);
  }

  /** The serial loop calls the callback on 0, 1, ..., count - 1, each once, in this order. */
  method SerialTrace(count: nat) returns (trace: seq<int>)
    ensures |trace| == count && forall i :: 0 <= i < count ==> trace[i] == i
  {
    var write := (i: int, c: seq<int>) => c + [i];
    trace := RunSerial(count, write, []);
    FoldTrace(write, Serial(count), []);
  }

  /** An index may run last instead of in the middle. */
  lemma {:induction false} RunLater<C(!new)>(f: (int, C) -> C, count: nat, a: seq<int>, x: int, b: seq<int>, ctx: C)
    requires Commutes(f, count) && 0 <= x < count && forall y :: y in b ==> 0 <= y < count && y != x
    ensures Fold(f, a + [x] + b, ctx) == Fold(f, a + b + [x], ctx)
    decreases |b|
  {
    if b == [] {
      assert a + [x] + b == a + b + [x];
    } else {
      var y, b' := b[|b| - 1], b[..|b| - 1];
      assert b == b' + [y] && y in b;
      assert forall z :: z in b' ==> z in b;
      var c := Fold(f, a + b', ctx);
      assert f(y, f(x, c)) == f(x, f(y, c));
      RunLater(f, count, a, x, b', ctx);
      assert (a + [x] + b)[..|a + [x] + b| - 1] == a + [x] + b';
      assert (a + b + [x])[..|a + b|] == a + b;
      assert (a + b)[..|a + b| - 1] == a + b';
      assert (a + b' + [x])[..|a + b'|] == a + b';
    }
  }

  /** Two orders of the same distinct indices have the same effect. */
  lemma {:induction false} OrderIrrelevant<C(!new)>(f: (int, C) -> C, count: nat, a: seq<int>, b: seq<int>, ctx: C)
    requires Commutes(f, count) && multiset(a) == multiset(b)
    requires forall x :: x in multiset(b) ==> 0 <= x < count && multiset(b)[x] == 1
    ensures Fold(f, a, ctx) == Fold(f, b, ctx)
    decreases |b|
  {
    if b == [] {
      assert |multiset(a)| == |a| == |multiset(b)| == 0;
    } else {
      var x, b' := b[|b| - 1], b[..|b| - 1];
      var a1, a2 := TakeOut(a, b);
      assert x in multiset(b);
      RunLater(f, count, a1, x, a2, ctx);
      assert (a1 + a2 + [x])[..|a1 + a2|] == a1 + a2;
      assert forall y :: y in multiset(b') ==> y in multiset(b) && multiset(b')[y] <= multiset(b)[y];
      OrderIrrelevant(f, count, a1 + a2, b', ctx);
    }
  }

  /** Where `a` has the last index of `b`, when no index occurs twice. */
  lemma TakeOut(a: seq<int>, b: seq<int>) returns (a1: seq<int>, a2: seq<int>)
    requires multiset(a) == multiset(b) && b != []
    requires forall x :: x in multiset(b) ==> multiset(b)[x] == 1
    ensures a == a1 + [b[|b| - 1]] + a2
    ensures multiset(a1 + a2) == multiset(b[..|b| - 1]) <= multiset(b)
    ensures forall y :: y in a2 ==> y in multiset(b) && y != b[|b| - 1]
  {
    var x, b' := b[|b| - 1], b[..|b| - 1];
    assert b == b' + [x];
    assert multiset(b) == multiset(b') + multiset{x};
    assert x in multiset(a);
    var p :| 0 <= p < |a| && a[p] == x;
    a1, a2 := a[..p], a[p + 1..];
    assert a == a1 + [x] + a2;
    assert multiset(a) == multiset(a1 + a2) + multiset{x};
    SameRest(multiset(a1 + a2), multiset(b'), x);
    forall y | y in a2
      ensures y in multiset(b) && y != x
    {
      assert y in multiset(a1 + a2);
    }
  }

  lemma SameRest(m: multiset<int>, n: multiset<int>, x: int)
    requires m + multiset{x} == n + multiset{x}
    ensures m == n
  {
    assert m == (m + multiset{x}) - multiset{x} && n == (n + multiset{x}) - multiset{x};
  }

  lemma {:induction false} SerialOnce(count: nat)
    ensures ExactlyOnce(Serial(count), count)
    decreases count
  {
    if count > 0 {
      SerialOnce(count - 1);
      assert Serial(count) == Serial(count - 1) + [count - 1];
    }
  }

  /** Each index exactly once, in whatever order, has the effect of the serial loop. */
  lemma ExactlyOnceIsSerial<C(!new)>(f: (int, C) -> C, count: nat, log: seq<int>, ctx: C)
    requires Commutes(f, count) && ExactlyOnce(log, count)
    ensures Fold(f, log, ctx) == Fold(f, Serial(count), ctx)
  {
    SerialOnce(count);
    forall x
      ensures multiset(log)[x] == multiset(Serial(count))[x]
    {
    }
    assert multiset(log) == multiset(Serial(count));
    OrderIrrelevant(f, count, log, Serial(count), ctx);
  }
}
