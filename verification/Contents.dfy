/** What a slot array stores, and how single slot updates change the Robin Hood invariant,
    the stored bindings and the total probe length. */
module Contents {
  import opened Bits
  import opened Ring
  import opened RobinHood

  /** The key pointer and value stored for one string. */
  datatype Binding<V> = Binding(key: KeyRef, value: V)

  ghost predicate HasKey<V>(s: seq<Slot<V>>, i: nat, text: string) {
    i < |s| && s[i].Live? && s[i].key.text == text
  }

  /** Slot `i`, when live, holds its key's binding in `m`. */
  ghost predicate Agrees<V>(s: seq<Slot<V>>, i: nat, m: map<string, Binding<V>>)
    requires i < |s|
  {
    s[i].Live? ==> s[i].key.text in m && m[s[i].key.text] == Binding(s[i].key, s[i].value)
  }

  /** Slots `i` and `j` do not share a string. */
  ghost predicate Apart<V>(s: seq<Slot<V>>, i: nat, j: nat)
    requires i < |s| && j < |s|
  {
    s[i].Live? && s[j].Live? && s[i].key.text == s[j].key.text ==> i == j
  }

  /** The live slots are exactly the bindings of `m`, one slot per string. */
  ghost predicate Stores<V>(s: seq<Slot<V>>, m: map<string, Binding<V>>) {
    && (forall i :: 0 <= i < |s| ==> Agrees(s, i, m))
    && (forall i, j :: 0 <= i < |s| && 0 <= j < |s| ==> Apart(s, i, j))
    && (forall k :: k in m ==> exists i: nat :: HasKey(s, i, k))
  }

  ghost function TotalPsl<V>(s: seq<Slot<V>>): nat {
    if s == [] then 0 else TotalPsl(s[..|s| - 1]) + Psl(s[|s| - 1])
  }

  lemma {:induction false} TotalPslUpdate<V>(s: seq<Slot<V>>, i: nat, e: Slot<V>)
    requires i < |s|
    ensures TotalPsl(s[i := e]) == TotalPsl(s) - Psl(s[i]) + Psl(e)
    decreases |s|
  {
    var t, n := s[i := e], |s| - 1;
    if i == n {
      assert t[..n] == s[..n];
    } else {
      assert t[..n] == s[..n][i := e];
      TotalPslUpdate(s[..n], i, e);
    }
  }

  // ---- insertion: an entry in hand at slot `idx` ----

  /** `cur` may be placed at `idx` as far as its home and the preceding slot are concerned. */
  ghost predicate InHand<V>(s: seq<Slot<V>>, h: HashFn, idx: nat, cur: Slot<V>)
    requires idx < |s|
  {
    cur.Live? && Fits(cur, idx, |s|, h) && cur.psl <= Psl(s[Back(idx, 1, |s|)]) + 1
  }

  lemma PlaceKeepsRobin<V>(s: seq<Slot<V>>, h: HashFn, idx: nat, cur: Slot<V>)
    requires 1 < |s| && Robin(s, h) && idx < |s| && InHand(s, h, idx, cur)
    requires Psl(s[idx]) <= cur.psl
    ensures Robin(s[idx := cur], h)
  {
    var t := s[idx := cur];
    forall i | 0 <= i < |t|
      ensures WellPlaced(t, i, h) && Gentle(t, i)
    {
      assert WellPlaced(s, i, h) && Gentle(s, i);
    }
  }

  /** One probe step past a live slot, swapping when the slot's entry is closer to home: the
      invariant survives and the entry then in hand may be placed at the next slot. */
  lemma StepKeepsRobin<V>(s: seq<Slot<V>>, h: HashFn, idx: nat, cur: Slot<V>, e: nat)
    requires 1 < |s| && Robin(s, h) && idx < |s| && InHand(s, h, idx, cur)
    requires s[idx].Live? && e < |s| && s[e].Empty?
    ensures cur.psl < |s|
    ensures var (t, c) := if cur.psl > s[idx].psl then (s[idx := cur], s[idx]) else (s, cur);
            Robin(t, h) && Fits(c, idx, |s|, h) && c.psl < |s| && c.psl <= Psl(t[idx])
  {
    assert cur.psl < |s| by {
      var d := Dist(e, idx, |s|);
      PathBack(s, h, Back(idx, 1, |s|), d - 1);
      assert Back(Back(idx, 1, |s|), d - 1, |s|) == e;
    }
    if cur.psl > s[idx].psl {
      PlaceKeepsRobin(s, h, idx, cur);
      assert WellPlaced(s, idx, h);
    }
  }

  lemma StoresPlace<V>(s: seq<Slot<V>>, m: map<string, Binding<V>>, idx: nat, cur: Slot<V>)
    requires Stores(s, m) && idx < |s| && s[idx].Empty?
    requires cur.Live? && cur.key.text !in m
    ensures Stores(s[idx := cur], m[cur.key.text := Binding(cur.key, cur.value)])
    ensures LiveSlots(s[idx := cur]) == LiveSlots(s) + {idx}
  {
    var t, m' := s[idx := cur], m[cur.key.text := Binding(cur.key, cur.value)];
    forall i | 0 <= i < |s|
      ensures Agrees(t, i, m') && (s[i].Live? ==> s[i].key.text in m)
    {
      assert Agrees(s, i, m);
    }
    forall i, j | 0 <= i < |s| && 0 <= j < |s|
      ensures Apart(t, i, j)
    {
      assert Apart(s, i, j) && Agrees(s, i, m) && Agrees(s, j, m);
    }
    forall k | k in m'
      ensures exists i: nat :: HasKey(t, i, k)
    {
      if k == cur.key.text {
        assert HasKey(t, idx, k);
      } else {
        var i: nat :| HasKey(s, i, k);
        assert HasKey(t, i, k);
      }
    }
  }

  lemma StoresRemove<V>(s: seq<Slot<V>>, m: map<string, Binding<V>>, idx: nat)
    requires Stores(s, m) && idx < |s| && s[idx].Live?
    ensures s[idx].key.text in m
    ensures Stores(s[idx := Empty], m - {s[idx].key.text})
    ensures LiveSlots(s) == LiveSlots(s[idx := Empty]) + {idx}
  {
    var t, m' := s[idx := Empty], m - {s[idx].key.text};
    assert Agrees(s, idx, m);
    forall i | 0 <= i < |s|
      ensures Agrees(t, i, m')
    {
      assert Agrees(s, i, m) && Apart(s, i, idx);
    }
    forall i, j | 0 <= i < |s| && 0 <= j < |s|
      ensures Apart(t, i, j)
    {
      assert Apart(s, i, j);
    }
    forall k | k in m'
      ensures exists i: nat :: HasKey(t, i, k)
    {
      var i: nat :| HasKey(s, i, k);
      assert HasKey(t, i, k);
    }
  }

  /** Overwriting a value keeps the layout. */
  lemma ReplaceValue<V>(s: seq<Slot<V>>, h: HashFn, m: map<string, Binding<V>>, idx: nat, value: V)
    requires Robin(s, h) && Stores(s, m) && idx < |s| && s[idx].Live?
    ensures s[idx].key.text in m
    ensures var text, t := s[idx].key.text, s[idx := s[idx].(value := value)];
            Robin(t, h) && Stores(t, m[text := m[text].(value := value)]) && LiveSlots(t) == LiveSlots(s)
  {
    var text, t := s[idx].key.text, s[idx := s[idx].(value := value)];
    forall i | 0 <= i < |t|
      ensures WellPlaced(t, i, h) && Gentle(t, i)
    {
      assert WellPlaced(s, i, h) && Gentle(s, i);
    }
    assert Agrees(s, idx, m);
    var m' := m[text := m[text].(value := value)];
    forall i | 0 <= i < |s|
      ensures Agrees(t, i, m')
    {
      assert Agrees(s, i, m) && Apart(s, i, idx);
    }
    forall i, j | 0 <= i < |s| && 0 <= j < |s|
      ensures Apart(t, i, j)
    {
      assert Apart(s, i, j);
    }
    forall k | k in m
      ensures exists i: nat :: HasKey(t, i, k)
    {
      var i: nat :| HasKey(s, i, k);
      assert HasKey(t, i, k);
    }
  }

  lemma StoresNothing<V>(s: seq<Slot<V>>)
    requires forall i :: 0 <= i < |s| ==> s[i].Empty?
    ensures Stores(s, map[]) && LiveSlots(s) == {} && TotalPsl(s) == 0
  {
    if s != [] { StoresNothing(s[..|s| - 1]); }
  }

  /** One slot per string: as many live slots as bindings. */
  lemma {:induction false} StoresSize<V>(s: seq<Slot<V>>, m: map<string, Binding<V>>)
    requires Stores(s, m)
    ensures |LiveSlots(s)| == |m|
    decreases |m|
  {
    if m != map[] {
      var k :| k in m;
      var i: nat :| HasKey(s, i, k);
      assert i in LiveSlots(s);
    }
    if LiveSlots(s) != {} {
      var i :| i in LiveSlots(s);
      StoresRemove(s, m, i);
      KeyRemoved(m, s[i].key.text);
      StoresSize(s[i := Empty], m - {s[i].key.text});
      assert i !in LiveSlots(s[i := Empty]);
    }
  }

  lemma KeyRemoved<V>(m: map<string, Binding<V>>, k: string)
    requires k in m
    ensures |m - {k}| == |m| - 1
  {
    var m' := m - {k};
    assert m.Keys == m'.Keys + {k};
    assert |m.Keys| == |m| && |m'.Keys| == |m'|;
  }

  /** Slot `e` is the first empty slot that linear probing from `home` meets. */
  ghost predicate FirstEmptyFrom<V>(s: seq<Slot<V>>, home: nat, e: nat)
    requires home < |s|
  {
    e < |s| && s[e].Empty? &&
    forall j: nat :: j < |s| && Dist(home, j, |s|) < Dist(home, e, |s|) ==> s[j].Live?
  }

  /** A table with fewer live slots than slots has such a slot. */
  lemma FindFirstEmpty<V>(s: seq<Slot<V>>, home: nat) returns (e: nat)
    requires home < |s| && |LiveSlots(s)| < |s|
    ensures FirstEmptyFrom(s, home, e)
  {
    e := home;
    ghost var n := 0;
    while n < |s| && s[e].Live?
      invariant n <= |s| && e < |s|
      invariant n < |s| ==> Dist(home, e, |s|) == n
      invariant forall j: nat :: j < |s| && Dist(home, j, |s|) < n ==> s[j].Live?
    {
      e, n := Next(e, |s|), n + 1;
    }
    if n == |s| {
      ArcSize(home, n, n);
      assert Arc(home, n, n) <= LiveSlots(s);
      SubsetSize(Arc(home, n, n), LiveSlots(s));
    }
  }

  // ---- where a key can be ----

  /** A key stored `Dist` steps from its home is not passed by an early exit: every slot on the
      way holds an entry at least as far from home as the search is. */
  lemma NoEarlyExit<V>(s: seq<Slot<V>>, h: HashFn, p: nat, j: nat)
    requires Robin(s, h) && p < |s| && j < |s| && s[p].Live?
    requires var home := Home(h(s[p].key.text), |s|);
             Dist(home, j, |s|) <= Dist(home, p, |s|)
    ensures Psl(s[j]) >= Dist(Home(h(s[p].key.text), |s|), j, |s|) + 1
  {
    assert WellPlaced(s, p, h);
    PathBack(s, h, p, Dist(j, p, |s|));
  }

  lemma PathToEmpty<V>(s: seq<Slot<V>>, start: nat, e: nat)
    requires start < |s| && FirstEmptyFrom(s, start, e)
    ensures Dist(start, e, |s|) <= |LiveSlots(s)|
  {
    var n := Dist(start, e, |s|);
    ArcSize(start, n, |s|);
    SubsetSize(Arc(start, n, |s|), LiveSlots(s));
  }

  /** A search for `text` that is about to look at slot `idx` with probe length `psl`, having
      passed neither the empty slot `e` nor the string's slot. */
  ghost predicate Searching<V>(s: seq<Slot<V>>, h: HashFn, text: string, e: nat, idx: nat, psl: nat) {
    && idx < |s| && e < |s| && s[e].Empty?
    && var start := Home(h(text), |s|);
    && Dist(start, idx, |s|) == psl - 1 <= Dist(start, e, |s|)
    && forall p: nat :: HasKey(s, p, text) ==> psl - 1 <= Dist(start, p, |s|)
  }

  lemma SearchStart<V>(s: seq<Slot<V>>, h: HashFn, text: string) returns (e: nat)
    requires |LiveSlots(s)| < |s|
    ensures Searching(s, h, text, e, Home(h(text), |s|), 1)
    ensures Dist(Home(h(text), |s|), e, |s|) <= |LiveSlots(s)|
    ensures FirstEmptyFrom(s, Home(h(text), |s|), e)
  {
    e := FindFirstEmpty(s, Home(h(text), |s|));
    PathToEmpty(s, Home(h(text), |s|), e);
  }

  /** A search that meets another string's entry goes on in front of its own. */
  lemma SearchNext<V>(s: seq<Slot<V>>, h: HashFn, text: string, e: nat, idx: nat, psl: nat)
    requires Searching(s, h, text, e, idx, psl) && s[idx].Live? && !HasKey(s, idx, text)
    ensures psl < |s| && Searching(s, h, text, e, Next(idx, |s|), psl + 1)
  {
    var start := Home(h(text), |s|);
    assert idx != e;
    forall p: nat | HasKey(s, p, text)
      ensures psl <= Dist(start, p, |s|)
    {
      assert p != idx;
    }
  }

  /** What the three tests of a search at slot `idx` tell. */
  lemma SearchStep<V>(s: seq<Slot<V>>, h: HashFn, m: map<string, Binding<V>>, text: string,
                      e: nat, idx: nat, psl: nat)
    requires Robin(s, h) && Stores(s, m) && Searching(s, h, text, e, idx, psl)
    ensures psl > Psl(s[idx]) ==> text !in m
    ensures s[idx].Live? ==> (s[idx].hash == h(text) && s[idx].key.text == text <==> HasKey(s, idx, text))
    ensures HasKey(s, idx, text) ==> text in m
    ensures s[idx].Live? && !HasKey(s, idx, text) ==>
              psl < |s| && Searching(s, h, text, e, Next(idx, |s|), psl + 1)
  {
    assert Agrees(s, idx, m);
    assert WellPlaced(s, idx, h);
    hide Robin, Stores, Fits, Next;
    if s[idx].Live? && !HasKey(s, idx, text) { SearchNext(s, h, text, e, idx, psl); }
    if text in m && psl > Psl(s[idx]) {
      NoEarlyExit(s, h, SlotOf(s, m, text), idx);
      assert false;
    }
  }

  // ---- one key set, one layout ----

  /** Two arrays that store the same set of strings have the same home counts. */
  lemma SameKeysSameHomes<V>(s: seq<Slot<V>>, m: map<string, Binding<V>>,
                             t: seq<Slot<V>>, m': map<string, Binding<V>>, h: HashFn)
    requires Robin(s, h) && Stores(s, m) && Robin(t, h) && Stores(t, m')
    requires |s| == |t| && m.Keys == m'.Keys
    ensures SameHomes(s, t)
  {
    forall b: nat | b < |s|
      ensures |HomedIn(s, b, 1)| == |HomedIn(t, b, 1)|
    {
      HomesEmbed(s, m, t, m', h, b);
      HomesEmbed(t, m', s, m, h, b);
    }
  }

  lemma HomesEmbed<V>(s: seq<Slot<V>>, m: map<string, Binding<V>>,
                      t: seq<Slot<V>>, m': map<string, Binding<V>>, h: HashFn, b: nat)
    requires Robin(s, h) && Stores(s, m) && Robin(t, h) && Stores(t, m')
    requires |s| == |t| && m.Keys == m'.Keys && b < |s|
    ensures |HomedIn(s, b, 1)| <= |HomedIn(t, b, 1)|
  {
    forall j | j in HomedIn(s, b, 1)
      ensures s[j].key.text in m'
    {
      assert Agrees(s, j, m);
    }
    var f: map<nat, nat> := map j | j in HomedIn(s, b, 1) ::
      SlotOf(t, m', s[j].key.text);
    forall j, k | j in HomedIn(s, b, 1) && k in HomedIn(s, b, 1) && f[j] == f[k]
      ensures j == k
    {
      assert Apart(s, j, k);
    }
    forall j | j in HomedIn(s, b, 1)
      ensures f[j] in HomedIn(t, b, 1)
    {
      assert WellPlaced(s, j, h) && WellPlaced(t, f[j], h);
    }
    InjectionSize(HomedIn(s, b, 1), HomedIn(t, b, 1), f);
  }

  ghost function SlotOf<V>(s: seq<Slot<V>>, m: map<string, Binding<V>>, text: string): (i: nat)
    requires Stores(s, m) && text in m
    ensures HasKey(s, i, text)
  {
    var i: nat :| HasKey(s, i, text);
    i
  }
}
