/** The Robin Hood slot array as a value: its invariant, what the invariant says about probe
    paths, and the fact that the probe lengths depend only on the stored home slots. */
module RobinHood {
  import opened Bits
  import opened Ring

  /** A borrowed key pointer together with the string it points to. */
  datatype KeyRef = KeyRef(addr: nat, text: string)

  /** One table slot; `Empty` is the zeroed entry, whose probe length is 0. */
  datatype Slot<V> = Empty | Live(key: KeyRef, value: V, hash: uint32, psl: uint32)

  /** The seeded string hash; nothing below depends on which function it is. */
  type HashFn = string -> uint32

  function Psl<V>(e: Slot<V>): uint32 {
    if e.Empty? then 0 else e.psl
  }

  /** Home slot of a hash in a table of `cap` slots: `hash & mask`. */
  function Home(hash: uint32, cap: nat): (r: nat)
    requires cap > 0
    ensures r < cap
  {
    And(hash, cap - 1)
  }

  /** `(idx + 1) & mask` steps cyclically through the slots. */
  lemma MaskStep(idx: nat, cap: nat, mask: nat)
    requires IsPow2(cap) && idx < cap && mask == cap - 1
    ensures And(idx + 1, mask) == Next(idx, cap)
  {
    var k: nat :| cap == Pow2(k);
    var q := MaskSplit(idx + 1, k);
    DivModUnique(cap, q, And(idx + 1, mask), if idx + 1 == cap then 1 else 0, Next(idx, cap));
  }

  lemma MaskHome(hash: uint32, cap: nat, mask: nat)
    requires cap > 0 && mask == cap - 1
    ensures And(hash, mask) == Home(hash, cap)
  {
  }

  /** The home slot is the hash modulo the capacity. */
  lemma HomeIsMod(hash: uint32, cap: nat)
    requires IsPow2(cap)
    ensures Home(hash, cap) == hash % cap
  {
    var k: nat :| cap == Pow2(k);
    MaskIsMod(hash, k);
  }

  /** A live slot caches its key's hash, and its probe length is its cyclic distance from
      home plus one. */
  ghost predicate Fits<V>(e: Slot<V>, i: nat, cap: nat, h: HashFn)
    requires i < cap
  {
    e.Live? ==> e.hash == h(e.key.text) && e.psl == Dist(Home(e.hash, cap), i, cap) + 1
  }

  ghost predicate WellPlaced<V>(s: seq<Slot<V>>, i: nat, h: HashFn)
    requires i < |s|
  {
    Fits(s[i], i, |s|, h)
  }

  /** Probe lengths grow by at most one from a slot to the next. */
  ghost predicate Gentle<V>(s: seq<Slot<V>>, i: nat)
    requires i < |s|
  {
    Psl(s[Next(i, |s|)]) <= Psl(s[i]) + 1
  }

  ghost predicate Robin<V>(s: seq<Slot<V>>, h: HashFn) {
    && (forall i :: 0 <= i < |s| ==> WellPlaced(s, i, h))
    && (forall i :: 0 <= i < |s| ==> Gentle(s, i))
  }

  ghost function LiveSlots<V>(s: seq<Slot<V>>): set<nat> {
    set i: nat | i < |s| && s[i].Live?
  }

  /** Live slots whose home is one of the `n` slots starting at `a`. */
  ghost function HomedIn<V>(s: seq<Slot<V>>, a: nat, n: nat): set<nat>
    requires a < |s|
  {
    set j: nat | j < |s| && s[j].Live? && Dist(a, Home(s[j].hash, |s|), |s|) < n
  }

  // ---- probe paths ----

  /** Walking back from slot `i`, probe lengths fall by at most one per step; in particular
      every slot on a live entry's path from home is live. */
  lemma {:induction false} PathBack<V>(s: seq<Slot<V>>, h: HashFn, i: nat, d: nat)
    requires Robin(s, h) && i < |s| && d < |s|
    ensures Psl(s[Back(i, d, |s|)]) + d >= Psl(s[i])
    decreases d
  {
    if d > 0 {
      PathBack(s, h, i, d - 1);
      assert Gentle(s, Back(i, d, |s|));
    }
  }

  /** Probe lengths never exceed the number of live slots. */
  lemma PslAtMostLive<V>(s: seq<Slot<V>>, h: HashFn, i: nat)
    requires Robin(s, h) && i < |s|
    ensures Psl(s[i]) <= |LiveSlots(s)|
  {
    if s[i].Live? {
      assert WellPlaced(s, i, h);
      var home := Home(s[i].hash, |s|);
      forall j | j in Arc(home, s[i].psl, |s|)
        ensures j in LiveSlots(s)
      {
        PathBack(s, h, i, Dist(j, i, |s|));
      }
      ArcSize(home, s[i].psl, |s|);
      SubsetSize(Arc(home, s[i].psl, |s|), LiveSlots(s));
    }
  }

  /** With an empty slot somewhere, walking back from any slot meets one: `k` steps back is
      the first. */
  lemma FirstEmptyBack<V>(s: seq<Slot<V>>, i: nat, e: nat) returns (k: nat)
    requires i < |s| && e < |s| && s[e].Empty?
    ensures k < |s| && s[Back(i, k, |s|)].Empty?
    ensures forall d: nat :: d < k ==> s[Back(i, d, |s|)].Live?
  {
    k := 0;
    while s[Back(i, k, |s|)].Live?
      invariant k <= Dist(e, i, |s|)
      invariant forall d: nat :: d < k ==> s[Back(i, d, |s|)].Live?
      decreases |s| - k
    {
      assert k != Dist(e, i, |s|);
      k := k + 1;
    }
  }

  // ---- canonical layout ----

  /** Some window of `n` home slots that ends `m` slots before `i` is overfull by `m`. */
  ghost predicate Overfull<V>(s: seq<Slot<V>>, i: nat, m: nat, n: nat)
    requires i < |s|
  {
    1 <= n && n + m < |s| && |HomedIn(s, Back(i, m + n - 1, |s|), n)| >= n + m
  }

  /** Slot `i` has a probe length above `m` and its cluster starts k - 1 slots before it: every slot
      of the cluster up to `i` has its home in the first k - m of them. */
  lemma ClusterHomed<V>(s: seq<Slot<V>>, h: HashFn, i: nat, m: nat, k: nat, j: nat)
    requires Robin(s, h) && i < |s| && m < k < |s| && Psl(s[i]) > m
    requires s[Back(i, k, |s|)].Empty? && forall d: nat :: d < k ==> s[Back(i, d, |s|)].Live?
    requires j in Arc(Back(i, k - 1, |s|), k, |s|)
    ensures j in HomedIn(s, Back(i, k - 1, |s|), k - m)
  {
    var t := Dist(j, i, |s|);
    assert j == Back(i, t, |s|) && s[j].Live? && WellPlaced(s, j, h);
    PathBack(s, h, j, k - t);
    PathBack(s, h, i, t);
  }

  /** A probe length above `m` is explained by an overfull window: the one that starts where
      the slot's cluster starts. */
  lemma LongPslOverfull<V>(s: seq<Slot<V>>, h: HashFn, i: nat, m: nat, e: nat) returns (n: nat)
    requires Robin(s, h) && i < |s| && e < |s| && s[e].Empty?
    requires Psl(s[i]) > m
    ensures Overfull(s, i, m, n)
  {
    var cap := |s|;
    var k := FirstEmptyBack(s, i, e);
    PathBack(s, h, i, k);
    n := k - m;
    var a := Back(i, k - 1, cap);
    forall j | j in Arc(a, k, cap)
      ensures j in HomedIn(s, a, n)
    {
      ClusterHomed(s, h, i, m, k, j);
    }
    ArcSize(a, k, cap);
    SubsetSize(Arc(a, k, cap), HomedIn(s, a, n));
  }

  /** Conversely an overfull window forces a probe length above `m`. */
  lemma OverfullLongPsl<V>(s: seq<Slot<V>>, h: HashFn, i: nat, m: nat, n: nat)
    requires Robin(s, h) && i < |s| && Overfull(s, i, m, n)
    ensures Psl(s[i]) > m
  {
    var cap := |s|;
    var a := Back(i, m + n - 1, cap);
    if Psl(s[i]) <= m {
      forall j | j in HomedIn(s, a, n)
        ensures j in Arc(a, n + m - 1, cap)
      {
        assert WellPlaced(s, j, h);
        var x := Dist(a, Home(s[j].hash, cap), cap);
        if x + s[j].psl - 1 >= n + m - 1 {
          PathBack(s, h, j, x + s[j].psl - 1 - (n + m - 1));
        }
      }
      ArcSize(a, n + m - 1, cap);
      SubsetSize(HomedIn(s, a, n), Arc(a, n + m - 1, cap));
    }
  }

  /** The same number of entries call each slot home. */
  ghost predicate SameHomes<V>(s: seq<Slot<V>>, t: seq<Slot<V>>) {
    |s| == |t| && forall b: nat :: b < |s| ==> |HomedIn(s, b, 1)| == |HomedIn(t, b, 1)|
  }

  lemma {:induction false} SameWindows<V>(s: seq<Slot<V>>, t: seq<Slot<V>>, a: nat, n: nat)
    requires SameHomes(s, t) && a < |s| && n <= |s|
    ensures |HomedIn(s, a, n)| == |HomedIn(t, a, n)|
    decreases n
  {
    if n == 0 {
      assert HomedIn(s, a, 0) == {} == HomedIn(t, a, 0);
    } else {
      SameWindows(s, t, a, n - 1);
      SplitWindow(s, a, n);
      SplitWindow(t, a, n);
    }
  }

  lemma SplitWindow<V>(s: seq<Slot<V>>, a: nat, n: nat)
    requires a < |s| && 1 <= n <= |s|
    ensures var last := if a + n - 1 < |s| then a + n - 1 else a + n - 1 - |s|;
            |HomedIn(s, a, n)| == |HomedIn(s, a, n - 1)| + |HomedIn(s, last, 1)|
  {
    var last := if a + n - 1 < |s| then a + n - 1 else a + n - 1 - |s|;
    assert HomedIn(s, a, n) == HomedIn(s, a, n - 1) + HomedIn(s, last, 1);
    assert HomedIn(s, a, n - 1) !! HomedIn(s, last, 1);
  }

  /** Canonical layout: two Robin Hood arrays of one size, neither full, in which equally many
      entries call each slot home have the same probe length in every slot, whatever sequence
      of insertions and deletions produced them. */
  lemma CanonicalLayout<V>(s: seq<Slot<V>>, t: seq<Slot<V>>, h: HashFn, es: nat, et: nat)
    requires Robin(s, h) && Robin(t, h) && SameHomes(s, t)
    requires es < |s| && s[es].Empty? && et < |t| && t[et].Empty?
    ensures forall i :: 0 <= i < |s| ==> Psl(s[i]) == Psl(t[i])
  {
    forall i: nat | i < |s|
      ensures Psl(s[i]) == Psl(t[i])
    {
      if Psl(s[i]) > Psl(t[i]) {
        PslNotAbove(s, t, h, i, es);
      } else if Psl(t[i]) > Psl(s[i]) {
        PslNotAbove(t, s, h, i, et);
      }
    }
  }

  lemma PslNotAbove<V>(s: seq<Slot<V>>, t: seq<Slot<V>>, h: HashFn, i: nat, es: nat)
    requires Robin(s, h) && Robin(t, h) && SameHomes(s, t) && i < |s|
    requires es < |s| && s[es].Empty?
    ensures Psl(s[i]) <= Psl(t[i])
  {
    var m := Psl(t[i]);
    if Psl(s[i]) > m {
      var n := LongPslOverfull(s, h, i, m, es);
      SameWindows(s, t, Back(i, m + n - 1, |s|), n);
      OverfullLongPsl(t, h, i, m, n);
    }
  }
}
