/** Cyclic arithmetic over the slots 0..cap-1 of an open-addressing table. */
module Ring {

  function Next(i: nat, cap: nat): (r: nat)
    requires i < cap
    ensures r < cap
  {
    if i + 1 == cap then 0 else i + 1
  }

  /** Number of forward steps from slot `a` to slot `b`. */
  function Dist(a: nat, b: nat, cap: nat): (r: nat)
    requires a < cap && b < cap
    ensures r < cap
  {
    if a <= b then b - a else b + cap - a
  }

  /** The slot `d` steps before slot `a`. */
  function Back(a: nat, d: nat, cap: nat): (r: nat)
    requires a < cap && d <= cap
    ensures r < cap
  {
    if d <= a then a - d else a + cap - d
  }

  /** The `n` consecutive slots that start at `a`. */
  ghost function Arc(a: nat, n: nat, cap: nat): set<nat>
    requires a < cap
  {
    set j: nat | j < cap && Dist(a, j, cap) < n
  }

  /** The slot `d` steps after slot `a`. */
  function Ahead(a: nat, d: nat, cap: nat): (r: nat)
    requires a < cap && d < cap
    ensures r < cap && Dist(a, r, cap) == d
  {
    if a + d < cap then a + d else a + d - cap
  }

  lemma DistInjective(a: nat, b: nat, c: nat, cap: nat)
    requires a < cap && b < cap && c < cap && Dist(a, b, cap) == Dist(a, c, cap)
    ensures b == c
  {
  }

  lemma ArcNext(a: nat, n: nat, cap: nat)
    requires a < cap && n < cap
    ensures Arc(a, n + 1, cap) == Arc(a, n, cap) + {Ahead(a, n, cap)} && Ahead(a, n, cap) !in Arc(a, n, cap)
  {
    hide Dist, Ahead;
    forall j: nat | j < cap && Dist(a, j, cap) == n
      ensures j == Ahead(a, n, cap)
    {
      DistInjective(a, j, Ahead(a, n, cap), cap);
    }
  }

  lemma {:induction false} ArcSize(a: nat, n: nat, cap: nat)
    requires a < cap && n <= cap
    ensures |Arc(a, n, cap)| == n
  {
    hide Dist, Ahead;
    if n == 0 {
      assert Arc(a, n, cap) == {};
    } else {
      ArcSize(a, n - 1, cap);
      ArcNext(a, n - 1, cap);
    }
  }

  lemma SubsetSize<T>(a: set<T>, b: set<T>)
    requires a <= b
    ensures |a| <= |b|
  {
    assert b == a + (b - a);
  }

  /** An injective map from `a` into `b` shows that `a` is no larger. */
  lemma {:induction false} InjectionSize(a: set<nat>, b: set<nat>, f: map<nat, nat>)
    requires forall x :: x in a ==> x in f && f[x] in b
    requires forall x, y :: x in a && y in a && f[x] == f[y] ==> x == y
    ensures |a| <= |b|
  {
    if a != {} {
      var x :| x in a;
      InjectionSize(a - {x}, b - {f[x]}, f);
    }
  }
}
