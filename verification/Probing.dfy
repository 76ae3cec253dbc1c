/** The insertion loop as a recursive function on slot arrays, and what it does to a Robin Hood
    array: it fills the slot plain linear probing would, or finds the key. */
module Probing {
  import opened Options
  import opened Bits
  import opened Ring
  import opened RobinHood
  import opened Contents

  datatype WalkResult<V> =
    | Placed(slots: seq<Slot<V>>)
    | Updated(slots: seq<Slot<V>>, prev: V)
    | Exhausted

  /** `psl++` on a 32-bit word. */
  function Inc(x: uint32): uint32 {
    if x == UINT32_MAX then 0 else x + 1
  }

  /** The array after one probe step past live slot `idx`, and the entry then in hand: the one
      closer to home yields its slot. */
  function Stolen<V>(s: seq<Slot<V>>, idx: nat, cur: Slot<V>): (r: (seq<Slot<V>>, Slot<V>))
    requires idx < |s| && s[idx].Live? && cur.Live?
    ensures |r.0| == |s| && r.1.Live?
  {
    if cur.psl > s[idx].psl then (s[idx := cur], s[idx]) else (s, cur)
  }

  /** At most `probes` steps of the insertion loop with `cur` in hand in front of slot `idx`. */
  function InsertWalk<V>(s: seq<Slot<V>>, idx: nat, cur: Slot<V>, probes: nat): WalkResult<V>
    requires idx < |s| && cur.Live?
    decreases probes
  {
    if probes == 0 then
      Exhausted
    else if Psl(s[idx]) == 0 then
      Placed(s[idx := cur])
    else if s[idx].hash == cur.hash && s[idx].key.text == cur.key.text then
      Updated(s[idx := s[idx].(value := cur.value)], s[idx].value)
    else
      var (t, c) := Stolen(s, idx, cur);
      InsertWalk(t, Next(idx, |s|), c.(psl := Inc(c.psl)), probes - 1)
  }

  /** Slot `e` is empty and the slots from `idx` up to it are live. */
  ghost predicate Walking<V>(s: seq<Slot<V>>, h: HashFn, e: nat, idx: nat, cur: Slot<V>) {
    && 1 < |s| <= MAX_CAPACITY && idx < |s| && FirstEmptyFrom(s, idx, e)
    && Robin(s, h) && InHand(s, h, idx, cur)
  }

  lemma WalkStart<V>(s: seq<Slot<V>>, h: HashFn, cur: Slot<V>, e: nat)
    requires 1 < |s| <= MAX_CAPACITY && Robin(s, h)
    requires cur.Live? && cur.hash == h(cur.key.text) && cur.psl == 1
    requires FirstEmptyFrom(s, Home(cur.hash, |s|), e)
    ensures Walking(s, h, e, Home(cur.hash, |s|), cur)
  {
  }

  lemma WalkStep<V>(s: seq<Slot<V>>, h: HashFn, e: nat, idx: nat, cur: Slot<V>)
    requires Walking(s, h, e, idx, cur) && s[idx].Live?
    ensures Psl(s[idx]) > 0
    ensures var (t, c) := Stolen(s, idx, cur);
            c.psl < MAX_CAPACITY && Walking(t, h, e, Next(idx, |s|), c.(psl := c.psl + 1))
    ensures Dist(idx, e, |s|) == Dist(Next(idx, |s|), e, |s|) + 1
  {
    hide Robin, Dist, Next, Fits;
    StepKeepsRobin(s, h, idx, cur, e);
    PathStep(s, e, idx, Stolen(s, idx, cur).0);
    HandStep(Stolen(s, idx, cur).0, h, idx, Stolen(s, idx, cur).1);
    LivePsl(s, h, idx);
  }

  lemma LivePsl<V>(s: seq<Slot<V>>, h: HashFn, idx: nat)
    requires Robin(s, h) && idx < |s| && s[idx].Live?
    ensures Psl(s[idx]) > 0
  {
    assert WellPlaced(s, idx, h);
  }

  /** The empty slot stays the first one from the next slot on. */
  lemma PathStep<V>(s: seq<Slot<V>>, e: nat, idx: nat, t: seq<Slot<V>>)
    requires idx < |s| == |t| && FirstEmptyFrom(s, idx, e) && s[idx].Live?
    requires forall j :: 0 <= j < |s| ==> (t[j].Live? <==> s[j].Live?)
    ensures FirstEmptyFrom(t, Next(idx, |s|), e) && Dist(idx, e, |s|) == Dist(Next(idx, |s|), e, |s|) + 1
  {
    forall j: nat | j < |s| && Dist(Next(idx, |s|), j, |s|) < Dist(Next(idx, |s|), e, |s|)
      ensures t[j].Live?
    {
      assert Dist(idx, j, |s|) < Dist(idx, e, |s|);
    }
  }

  /** An entry that fits slot `idx` fits the next one with its probe length raised. */
  lemma HandStep<V>(t: seq<Slot<V>>, h: HashFn, idx: nat, c: Slot<V>)
    requires idx < |t| && c.Live? && Fits(c, idx, |t|, h) && c.psl < |t| <= MAX_CAPACITY && c.psl <= Psl(t[idx])
    ensures InHand(t, h, Next(idx, |t|), c.(psl := c.psl + 1))
  {
  }

  lemma StepCounts<V>(s: seq<Slot<V>>, idx: nat, cur: Slot<V>)
    requires idx < |s| && s[idx].Live? && cur.Live?
    ensures var (t, c) := Stolen(s, idx, cur);
            LiveSlots(t) == LiveSlots(s) && TotalPsl(t) + c.psl == TotalPsl(s) + cur.psl
  {
    TotalPslUpdate(s, idx, cur);
  }

  /** The array stores `m` except for the binding of the entry in hand. */
  ghost predicate Carrying<V>(s: seq<Slot<V>>, rest: map<string, Binding<V>>, cur: Slot<V>,
                              m: map<string, Binding<V>>) {
    && Stores(s, rest) && cur.Live? && cur.key.text !in rest
    && rest[cur.key.text := Binding(cur.key, cur.value)] == m
  }

  /** No stored entry has the key of the entry in hand, displaced or not, and a probe step
      keeps what is carried. */
  lemma CarryStep<V>(s: seq<Slot<V>>, rest: map<string, Binding<V>>, cur: Slot<V>,
                     m: map<string, Binding<V>>, idx: nat) returns (rest': map<string, Binding<V>>)
    requires Carrying(s, rest, cur, m) && idx < |s| && s[idx].Live?
    ensures s[idx].key.text != cur.key.text
    ensures var (t, c) := Stolen(s, idx, cur); Carrying(t, rest', c.(psl := Inc(c.psl)), m)
  {
    rest' := rest;
    assert Agrees(s, idx, rest);
    if cur.psl > s[idx].psl {
      var hole := s[idx := Empty];
      StoresRemove(s, rest, idx);
      rest' := rest - {s[idx].key.text};
      StoresPlace(hole, rest', idx, cur);
      rest' := rest'[cur.key.text := Binding(cur.key, cur.value)];
      assert hole[idx := cur] == s[idx := cur];
    }
  }

  /** Inserting ends in the first empty slot, every swap on the way keeping the invariant; the
      total probe length grows by the distance. */
  lemma {:induction false} WalkPlaces<V>(s: seq<Slot<V>>, h: HashFn, e: nat, idx: nat, cur: Slot<V>,
                                         probes: nat)
    requires Walking(s, h, e, idx, cur) && probes > Dist(idx, e, |s|)
    requires !InsertWalk(s, idx, cur, probes).Updated?
    ensures var r := InsertWalk(s, idx, cur, probes);
            && r.Placed? && |r.slots| == |s| && Robin(r.slots, h)
            && LiveSlots(r.slots) == LiveSlots(s) + {e}
            && TotalPsl(r.slots) == TotalPsl(s) + cur.psl + Dist(idx, e, |s|)
    decreases probes
  {
    hide Robin, FirstEmptyFrom, LiveSlots, TotalPsl, Dist, Next, Stolen, Fits;
    if s[idx].Empty? {
      PlacesHere(s, h, e, idx, cur);
    } else {
      WalkStep(s, h, e, idx, cur);
      StepCounts(s, idx, cur);
      var (t, c) := Stolen(s, idx, cur);
      WalkPlaces(t, h, e, Next(idx, |s|), c.(psl := c.psl + 1), probes - 1);
    }
  }

  lemma PlacesHere<V>(s: seq<Slot<V>>, h: HashFn, e: nat, idx: nat, cur: Slot<V>)
    requires Walking(s, h, e, idx, cur) && s[idx].Empty?
    ensures idx == e && Dist(idx, e, |s|) == 0 && Robin(s[idx := cur], h)
    ensures LiveSlots(s[idx := cur]) == LiveSlots(s) + {e} && TotalPsl(s[idx := cur]) == TotalPsl(s) + cur.psl
  {
    PlaceKeepsRobin(s, h, idx, cur);
    TotalPslUpdate(s, idx, cur);
  }

  /** Inserting an absent key stores its binding and keeps all others; no comparison on the way
      succeeds. */
  lemma {:induction false} WalkStores<V>(s: seq<Slot<V>>, h: HashFn, e: nat, idx: nat, cur: Slot<V>,
                                         rest: map<string, Binding<V>>, m: map<string, Binding<V>>, probes: nat)
    requires Walking(s, h, e, idx, cur) && Carrying(s, rest, cur, m)
    ensures var r := InsertWalk(s, idx, cur, probes);
            !r.Updated? && (r.Placed? ==> Stores(r.slots, m))
    decreases probes
  {
    hide Robin, FirstEmptyFrom, Stores, Dist, Next, Stolen, Fits;
    if probes > 0 {
      if s[idx].Empty? {
        StoresPlace(s, rest, idx, cur);
      } else {
        WalkStep(s, h, e, idx, cur);
        var rest' := CarryStep(s, rest, cur, m, idx);
        var (t, c) := Stolen(s, idx, cur);
        WalkStores(t, h, e, Next(idx, |s|), c.(psl := c.psl + 1), rest', m, probes - 1);
      }
    }
  }

  /** Inserting a key that is present: nothing is displaced before its slot is reached. */
  lemma {:induction false} WalkFinds<V>(s: seq<Slot<V>>, h: HashFn, m: map<string, Binding<V>>,
                                        e: nat, idx: nat, cur: Slot<V>, probes: nat)
    requires |s| <= MAX_CAPACITY && Robin(s, h) && Stores(s, m) && cur.Live? && cur.key.text in m
    requires cur.hash == h(cur.key.text) && Searching(s, h, cur.key.text, e, idx, cur.psl)
    requires probes + cur.psl - 1 > Dist(Home(cur.hash, |s|), e, |s|)
    ensures var p := SlotOf(s, m, cur.key.text);
            InsertWalk(s, idx, cur, probes) == Updated(s[p := s[p].(value := cur.value)], s[p].value)
    decreases probes
  {
    SearchStep(s, h, m, cur.key.text, e, idx, cur.psl);
    assert WellPlaced(s, idx, h) && Apart(s, idx, SlotOf(s, m, cur.key.text));
    if !HasKey(s, idx, cur.key.text) {
      WalkFinds(s, h, m, e, Next(idx, |s|), cur.(psl := Inc(cur.psl)), probes - 1);
    }
  }

  /** The bindings after setting `key` to `value`: an update keeps the stored key pointer. */
  function Bound<V>(m: map<string, Binding<V>>, key: KeyRef, value: V): (r: map<string, Binding<V>>)
    ensures |r| == |m| + (if key.text in m then 0 else 1)
  {
    m[key.text := Binding(if key.text in m then m[key.text].key else key, value)]
  }

  /** Exactly the slot that linear probing from `home` would take becomes live, and the total
      probe length rises by that slot's distance from `home` plus one. */
  ghost predicate LikeLinearProbing<V>(s: seq<Slot<V>>, home: nat, t: seq<Slot<V>>)
    requires home < |s|
  {
    && |t| == |s|
    && exists e: nat ::
         FirstEmptyFrom(s, home, e) && LiveSlots(t) == LiveSlots(s) + {e}
         && TotalPsl(t) == TotalPsl(s) + Dist(home, e, |s|) + 1
  }

  ghost predicate SameShape<V>(s: seq<Slot<V>>, t: seq<Slot<V>>) {
    |t| == |s| && LiveSlots(t) == LiveSlots(s) && forall i :: 0 <= i < |s| ==> Psl(t[i]) == Psl(s[i])
  }

  /** The insertion loop, started at the key's home slot. */
  function Inserted<V>(s: seq<Slot<V>>, h: HashFn, key: KeyRef, value: V, probes: nat): WalkResult<V>
    requires s != []
  {
    InsertWalk(s, Home(h(key.text), |s|), Live(key, value, h(key.text), 1), probes)
  }

  lemma InsertAbsent<V>(s: seq<Slot<V>>, h: HashFn, m: map<string, Binding<V>>, key: KeyRef, value: V, probes: nat)
    requires 1 < |s| <= MAX_CAPACITY && |LiveSlots(s)| < |s| && Robin(s, h) && Stores(s, m)
    requires probes > |LiveSlots(s)| && key.text !in m
    ensures var r := Inserted(s, h, key, value, probes);
            && r.Placed? && |r.slots| == |s| && Robin(r.slots, h) && Stores(r.slots, Bound(m, key, value))
            && LikeLinearProbing(s, Home(h(key.text), |s|), r.slots)
            && |LiveSlots(r.slots)| == |LiveSlots(s)| + 1
  {
    hide Robin, LiveSlots, Searching, InsertWalk, Walking, TotalPsl, Dist, Stores, Home;
    var hash := h(key.text);
    var home, cur := Home(hash, |s|), Live(key, value, hash, 1);
    var e := SearchStart(s, h, key.text);
    WalkStart(s, h, cur, e);
    WalkStores(s, h, e, home, cur, m, Bound(m, key, value), probes);
    WalkPlaces(s, h, e, home, cur, probes);
    NotLive(s, e);
  }

  lemma NotLive<V>(s: seq<Slot<V>>, e: nat)
    requires e < |s| && s[e].Empty?
    ensures |LiveSlots(s) + {e}| == |LiveSlots(s)| + 1
  {
    assert e !in LiveSlots(s);
  }

  lemma InsertPresent<V>(s: seq<Slot<V>>, h: HashFn, m: map<string, Binding<V>>, key: KeyRef, value: V, probes: nat)
    requires 1 < |s| <= MAX_CAPACITY && |LiveSlots(s)| < |s| && Robin(s, h) && Stores(s, m)
    requires probes > |LiveSlots(s)| && key.text in m
    ensures var r := Inserted(s, h, key, value, probes);
            && r.Updated? && |r.slots| == |s| && Robin(r.slots, h) && Stores(r.slots, Bound(m, key, value))
            && r.prev == m[key.text].value && SameShape(s, r.slots)
  {
    hide Robin, LiveSlots, Searching, InsertWalk, Stores, Dist, SameShape;
    var hash := h(key.text);
    var home, cur := Home(hash, |s|), Live(key, value, hash, 1);
    var e := SearchStart(s, h, key.text);
    var p := SlotOf(s, m, key.text);
    WalkFinds(s, h, m, e, home, cur, probes);
    StoredValue(s, m, p);
    ReplaceValue(s, h, m, p, value);
    Reshaped(s, p, value);
  }

  lemma StoredValue<V>(s: seq<Slot<V>>, m: map<string, Binding<V>>, p: nat)
    requires Stores(s, m) && p < |s| && s[p].Live?
    ensures s[p].key.text in m && m[s[p].key.text] == Binding(s[p].key, s[p].value)
  {
    assert Agrees(s, p, m);
  }

  lemma Reshaped<V>(s: seq<Slot<V>>, p: nat, value: V)
    requires p < |s| && s[p].Live?
    ensures SameShape(s, s[p := s[p].(value := value)])
  {
  }

  /** The whole insertion loop. One probe more than there are live slots is enough. */
  lemma InsertCorrect<V>(s: seq<Slot<V>>, h: HashFn, m: map<string, Binding<V>>, key: KeyRef, value: V, probes: nat)
    requires 1 < |s| <= MAX_CAPACITY && |LiveSlots(s)| < |s| && Robin(s, h) && Stores(s, m)
    requires probes > |LiveSlots(s)|
    ensures var r := Inserted(s, h, key, value, probes);
            && !r.Exhausted? && |r.slots| == |s| && Robin(r.slots, h) && Stores(r.slots, Bound(m, key, value))
            && (r.Placed? <==> key.text !in m)
            && (r.Placed? ==> LikeLinearProbing(s, Home(h(key.text), |s|), r.slots))
            && |LiveSlots(r.slots)| == |LiveSlots(s)| + (if r.Placed? then 1 else 0)
            && (r.Updated? ==> r.prev == m[key.text].value && SameShape(s, r.slots))
  {
    hide Robin, LiveSlots, Inserted, Stores, LikeLinearProbing;
    if key.text in m {
      InsertPresent(s, h, m, key, value, probes);
    } else {
      InsertAbsent(s, h, m, key, value, probes);
    }
  }

  // ---- rehashing: the same loop without key comparison ----

  function RehashWalk<V>(s: seq<Slot<V>>, idx: nat, cur: Slot<V>, probes: nat): Option<seq<Slot<V>>>
    requires idx < |s| && cur.Live?
    decreases probes
  {
    if probes == 0 then
      None
    else if Psl(s[idx]) == 0 then
      Some(s[idx := cur])
    else
      var (t, c) := Stolen(s, idx, cur);
      RehashWalk(t, Next(idx, |s|), c.(psl := Inc(c.psl)), probes - 1)
  }

  lemma {:induction false} RehashIsInsert<V>(s: seq<Slot<V>>, idx: nat, cur: Slot<V>, probes: nat)
    requires idx < |s| && cur.Live? && InsertWalk(s, idx, cur, probes).Placed?
    ensures RehashWalk(s, idx, cur, probes) == Some(InsertWalk(s, idx, cur, probes).slots)
    decreases probes
  {
    if Psl(s[idx]) != 0 {
      var (t, c) := Stolen(s, idx, cur);
      RehashIsInsert(t, Next(idx, |s|), c.(psl := Inc(c.psl)), probes - 1);
    }
  }

  /** Rehashing an entry whose key is not yet in the new array adds its binding. */
  lemma RehashCorrect<V>(s: seq<Slot<V>>, h: HashFn, m: map<string, Binding<V>>, key: KeyRef, value: V)
    requires 1 < |s| <= MAX_CAPACITY && |m| < |s| && Robin(s, h) && Stores(s, m) && key.text !in m
    ensures var hash := h(key.text);
            var r := RehashWalk(s, Home(hash, |s|), Live(key, value, hash, 1), |s|);
            r.Some? && |r.value| == |s| && Robin(r.value, h) && Stores(r.value, m[key.text := Binding(key, value)])
  {
    var hash := h(key.text);
    StoresSize(s, m);
    InsertCorrect(s, h, m, key, value, |s|);
    RehashIsInsert(s, Home(hash, |s|), Live(key, value, hash, 1), |s|);
  }

  /** `done` holds the bindings of the live slots below `i`. */
  ghost predicate Copied<V>(s: seq<Slot<V>>, i: nat, m: map<string, Binding<V>>, done: map<string, Binding<V>>)
    requires i <= |s|
  {
    && done.Keys <= m.Keys
    && (forall k :: k in done ==> done[k] == m[k] && exists j: nat :: j < i && HasKey(s, j, k))
    && (forall j: nat :: j < i && s[j].Live? ==> s[j].key.text in done)
  }

  lemma CopyStep<V>(s: seq<Slot<V>>, i: nat, m: map<string, Binding<V>>, done: map<string, Binding<V>>)
    requires Stores(s, m) && i < |s| && Copied(s, i, m, done) && s[i].Live?
    ensures s[i].key.text !in done && |done| < |m|
    ensures Copied(s, i + 1, m, done[s[i].key.text := Binding(s[i].key, s[i].value)])
  {
    var k0 := s[i].key.text;
    var done' := done[k0 := Binding(s[i].key, s[i].value)];
    assert Agrees(s, i, m);
    forall j: nat | j < i
      ensures !HasKey(s, j, k0)
    {
      assert Apart(s, i, j);
    }
    assert HasKey(s, i, k0);
    forall k | k in done'
      ensures done'[k] == m[k] && exists j: nat :: j < i + 1 && HasKey(s, j, k)
    {
      if k != k0 {
        var j: nat :| j < i && HasKey(s, j, k);
      }
    }
    SubsetSize(done'.Keys, m.Keys);
  }

  lemma CopySkip<V>(s: seq<Slot<V>>, h: HashFn, i: nat, m: map<string, Binding<V>>, done: map<string, Binding<V>>)
    requires Robin(s, h) && i < |s| && Copied(s, i, m, done) && Psl(s[i]) == 0
    ensures Copied(s, i + 1, m, done)
  {
    assert WellPlaced(s, i, h);
  }

  lemma CopyEnd<V>(s: seq<Slot<V>>, m: map<string, Binding<V>>, done: map<string, Binding<V>>)
    requires Stores(s, m) && Copied(s, |s|, m, done)
    ensures done == m
  {
    forall k | k in m
      ensures k in done
    {
      var j: nat :| HasKey(s, j, k);
    }
  }

  // ---- deletion ----

  /** The backward shift from a hole at `idx`, at most `n` steps: every entry away from home moves
      back by one slot until an empty slot or an entry at home comes next. The hole still shows
      its stale entry. */
  function ShiftWalk<V>(s: seq<Slot<V>>, idx: nat, n: nat): Option<seq<Slot<V>>>
    requires idx < |s|
    decreases n
  {
    var next := Next(idx, |s|);
    if n == 0 then None
    else if Psl(s[next]) <= 1 then Some(s[idx := Empty])
    else ShiftWalk(s[idx := s[next].(psl := s[next].psl - 1)], next, n - 1)
  }

  lemma ShiftKeepsRobin<V>(s: seq<Slot<V>>, h: HashFn, idx: nat)
    requires 1 < |s| && Robin(s, h) && idx < |s| && Psl(s[Next(idx, |s|)]) > 1
    ensures var next := s[Next(idx, |s|)]; Robin(s[idx := next.(psl := next.psl - 1)], h)
  {
    var next := Next(idx, |s|);
    var t := s[idx := s[next].(psl := s[next].psl - 1)];
    assert WellPlaced(s, next, h) && Gentle(s, idx);
    forall i | 0 <= i < |t|
      ensures WellPlaced(t, i, h) && Gentle(t, i)
    {
      assert WellPlaced(s, i, h) && Gentle(s, i);
    }
  }

  lemma HoleKeepsRobin<V>(s: seq<Slot<V>>, h: HashFn, idx: nat)
    requires 1 < |s| && Robin(s, h) && idx < |s| && Psl(s[Next(idx, |s|)]) <= 1
    ensures Robin(s[idx := Empty], h)
  {
    var t := s[idx := Empty];
    forall i | 0 <= i < |t|
      ensures WellPlaced(t, i, h) && Gentle(t, i)
    {
      assert WellPlaced(s, i, h) && Gentle(s, i);
    }
  }

  lemma ShiftKeepsStored<V>(s: seq<Slot<V>>, m: map<string, Binding<V>>, idx: nat)
    requires 1 < |s| && idx < |s| && Stores(s[idx := Empty], m) && s[Next(idx, |s|)].Live? && Psl(s[Next(idx, |s|)]) > 0
    ensures var next := Next(idx, |s|);
            Stores(s[idx := s[next].(psl := s[next].psl - 1)][next := Empty], m)
  {
    var next := Next(idx, |s|);
    var moved := s[next].(psl := s[next].psl - 1);
    var s0 := s[idx := Empty];
    assert Agrees(s0, next, m);
    StoresRemove(s0, m, next);
    var m' := m - {moved.key.text};
    StoresPlace(s0[next := Empty], m', idx, moved);
    assert s0[next := Empty][idx := moved] == s[idx := moved][next := Empty];
    assert m'[moved.key.text := Binding(moved.key, moved.value)] == m;
  }

  /** The shift closes the hole: the invariant holds again, and exactly the entry at the hole is
      gone. */
  lemma {:induction false} ShiftCorrect<V>(s: seq<Slot<V>>, h: HashFn, m: map<string, Binding<V>>,
                                           idx: nat, e: nat, n: nat)
    requires 1 < |s| && Robin(s, h) && idx < |s| && e < |s| && s[e].Empty? && idx != e
    requires Stores(s[idx := Empty], m) && n >= Dist(idx, e, |s|)
    ensures var r := ShiftWalk(s, idx, n);
            r.Some? && |r.value| == |s| && Robin(r.value, h) && Stores(r.value, m)
    decreases n
  {
    var next := Next(idx, |s|);
    if Psl(s[next]) <= 1 {
      HoleKeepsRobin(s, h, idx);
    } else {
      ShiftKeepsRobin(s, h, idx);
      ShiftKeepsStored(s, m, idx);
      ShiftCorrect(s[idx := s[next].(psl := s[next].psl - 1)], h, m, next, e, n - 1);
    }
  }

  /** The whole deletion, once the key's slot is found. Fewer shifts than live slots suffice. */
  lemma DeleteCorrect<V>(s: seq<Slot<V>>, h: HashFn, m: map<string, Binding<V>>, idx: nat, n: nat)
    requires 1 < |s| && |m| < |s| && Robin(s, h) && Stores(s, m) && idx < |s| && s[idx].Live? && n >= |m|
    ensures s[idx].key.text in m && m[s[idx].key.text] == Binding(s[idx].key, s[idx].value)
    ensures var r, m' := ShiftWalk(s, idx, n), m - {s[idx].key.text};
            && r.Some? && |r.value| == |s| && Robin(r.value, h) && Stores(r.value, m')
            && |m'| == |m| - 1 && |LiveSlots(r.value)| == |m'|
  {
    var m' := m - {s[idx].key.text};
    assert Agrees(s, idx, m);
    StoresSize(s, m);
    StoresRemove(s, m, idx);
    KeyRemoved(m, s[idx].key.text);
    var e := FindFirstEmpty(s, idx);
    PathToEmpty(s, idx, e);
    ShiftCorrect(s, h, m', idx, e, n);
    StoresSize(ShiftWalk(s, idx, n).value, m');
  }

  // ---- clearing, iteration, layout ----

  lemma EmptyTable<V>(s: seq<Slot<V>>, h: HashFn)
    requires forall i :: 0 <= i < |s| ==> s[i].Empty?
    ensures Robin(s, h) && Stores(s, map[]) && |LiveSlots(s)| == 0
  {
    StoresNothing(s);
    forall i | 0 <= i < |s|
      ensures WellPlaced(s, i, h) && Gentle(s, i)
    {
    }
  }

  /** `visited` lists the entries of the live slots below `i`, which are `at`, in order. */
  ghost predicate Enumerates<V>(s: seq<Slot<V>>, i: nat, at: seq<nat>, visited: seq<Binding<V>>)
    requires i <= |s|
  {
    && |at| == |visited|
    && (forall x :: 0 <= x < |at| ==>
          at[x] < i && s[at[x]].Live? && visited[x] == Binding(s[at[x]].key, s[at[x]].value))
    && (forall x, y :: 0 <= x < y < |at| ==> at[x] < at[y])
    && (forall j: nat :: j < i && s[j].Live? ==> j in at)
  }

  /** Slot `i` is visited if and only if it is live. */
  lemma EnumerationStep<V>(s: seq<Slot<V>>, h: HashFn, i: nat, at: seq<nat>, visited: seq<Binding<V>>)
    requires Robin(s, h) && i < |s| && Enumerates(s, i, at, visited)
    ensures if Psl(s[i]) > 0 then Enumerates(s, i + 1, at + [i], visited + [Binding(s[i].key, s[i].value)])
            else Enumerates(s, i + 1, at, visited)
  {
    assert WellPlaced(s, i, h);
    if Psl(s[i]) > 0 {
      forall j: nat | j < i + 1 && s[j].Live?
        ensures j in at + [i]
      {
        assert j < i ==> j in at;
      }
    }
  }

  lemma EnumerationComplete<V>(s: seq<Slot<V>>, m: map<string, Binding<V>>, at: seq<nat>, visited: seq<Binding<V>>)
    requires Stores(s, m) && Enumerates(s, |s|, at, visited)
    ensures |visited| == |m|
    ensures forall k :: k in m ==> m[k] in visited && m[k].key.text == k
    ensures forall x :: 0 <= x < |visited| ==> visited[x].key.text in m && visited[x] == m[visited[x].key.text]
    ensures forall x, y :: 0 <= x < y < |visited| ==> visited[x].key.text != visited[y].key.text
  {
    forall x, y | 0 <= x < y < |visited|
      ensures visited[x].key.text != visited[y].key.text
    {
      assert Apart(s, at[x], at[y]);
    }
    forall x | 0 <= x < |visited|
      ensures visited[x].key.text in m && visited[x] == m[visited[x].key.text]
    {
      assert Agrees(s, at[x], m);
    }
    forall k | k in m
      ensures m[k] in visited && m[k].key.text == k
    {
      var j := SlotOf(s, m, k);
      assert Agrees(s, j, m);
      var x :| 0 <= x < |at| && at[x] == j;
      assert visited[x] == m[k];
    }
    DistinctSize(at);
    assert Elements(at) == LiveSlots(s);
    StoresSize(s, m);
  }

  ghost function Elements(at: seq<nat>): set<nat> {
    set j | j in at
  }

  lemma {:induction false} DistinctSize(at: seq<nat>)
    requires forall x, y :: 0 <= x < y < |at| ==> at[x] < at[y]
    ensures |Elements(at)| == |at|
  {
    if at != [] {
      var n := |at| - 1;
      DistinctSize(at[..n]);
      assert at == at[..n] + [at[n]];
      assert Elements(at) == Elements(at[..n]) + {at[n]};
    }
  }

  /** The probe lengths depend on the capacity and the set of keys alone. */
  lemma KeysLayout<V>(s: seq<Slot<V>>, m: map<string, Binding<V>>,
                      t: seq<Slot<V>>, m': map<string, Binding<V>>, h: HashFn)
    requires Robin(s, h) && Stores(s, m) && Robin(t, h) && Stores(t, m')
    requires |s| == |t| > |m| && m.Keys == m'.Keys
    ensures forall i :: 0 <= i < |s| ==> Psl(s[i]) == Psl(t[i])
  {
    SameKeysSameHomes(s, m, t, m', h);
    StoresSize(s, m);
    StoresSize(t, m');
    assert |m| == |m.Keys| && |m'| == |m'.Keys|;
    var es := FindFirstEmpty(s, 0);
    var et := FindFirstEmpty(t, 0);
    CanonicalLayout(s, t, h, es, et);
  }

  /** Two entries with one home: the first one inserted sits there and the other one next to it. */
  ghost function TwoAtHome<V>(cap: nat, h: HashFn, a: KeyRef, x: V, b: KeyRef, y: V): seq<Slot<V>>
    requires cap > 0
  {
    var home := Home(h(a.text), cap);
    seq(cap, _ => Empty)[home := Live(a, x, h(a.text), 1)][Next(home, cap) := Live(b, y, h(b.text), 2)]
  }

  /** Two insertions into an empty array. */
  ghost function InsertedTwo<V>(cap: nat, h: HashFn, a: KeyRef, x: V, b: KeyRef, y: V): WalkResult<V>
    requires cap > 0
  {
    match Inserted(seq(cap, _ => Empty), h, a, x, cap)
    case Placed(slots) => if slots == [] then Exhausted else Inserted(slots, h, b, y, cap)
    case r => r
  }

  lemma TwoInserted<V>(cap: nat, h: HashFn, a: KeyRef, x: V, b: KeyRef, y: V)
    requires cap > 1 && a.text != b.text && Home(h(a.text), cap) == Home(h(b.text), cap)
    ensures InsertedTwo(cap, h, a, x, b, y) == Placed(TwoAtHome(cap, h, a, x, b, y))
  {
    var home := Home(h(a.text), cap);
    var s: seq<Slot<V>> := seq(cap, _ => Empty);
    assert Inserted(s, h, a, x, cap) == Placed(s[home := Live(a, x, h(a.text), 1)]);
    var t := s[home := Live(a, x, h(a.text), 1)];
    var cur := Live(b, y, h(b.text), 2);
    assert Inserted(t, h, b, y, cap) == InsertWalk(t, Next(home, cap), cur, cap - 1);
  }

  lemma TwoCorrect<V>(cap: nat, h: HashFn, a: KeyRef, x: V, b: KeyRef, y: V)
    requires 1 < cap <= MAX_CAPACITY && a.text != b.text
    ensures var r := InsertedTwo(cap, h, a, x, b, y);
            r.Placed? && Robin(r.slots, h) && Stores(r.slots, map[a.text := Binding(a, x), b.text := Binding(b, y)])
  {
    hide Robin, Stores, LiveSlots, Inserted, LikeLinearProbing, SameShape;
    var s: seq<Slot<V>> := seq(cap, _ => Empty);
    EmptyTable(s, h);
    InsertCorrect(s, h, map[], a, x, cap);
    var t := Inserted(s, h, a, x, cap).slots;
    InsertCorrect(t, h, Bound(map[], a, x), b, y, cap);
    assert Bound(Bound(map[], a, x), b, y) == map[a.text := Binding(a, x), b.text := Binding(b, y)];
  }

  /** The layout theorem is about probe lengths, not entries: any two keys with one home slot,
      inserted into an empty array in the two orders, give valid arrays with the same bindings and
      different entries. */
  lemma EntriesNotCanonical<V>(cap: nat, h: HashFn, a: KeyRef, x: V, b: KeyRef, y: V)
    requires 1 < cap <= MAX_CAPACITY && a.text != b.text && Home(h(a.text), cap) == Home(h(b.text), cap)
    ensures var r, r' := InsertedTwo(cap, h, a, x, b, y), InsertedTwo(cap, h, b, y, a, x);
            var m := map[a.text := Binding(a, x), b.text := Binding(b, y)];
            && r.Placed? && r'.Placed? && r.slots != r'.slots
            && Robin(r.slots, h) && Robin(r'.slots, h) && Stores(r.slots, m) && Stores(r'.slots, m)
  {
    hide InsertedTwo, Robin, Stores;
    TwoCorrect(cap, h, a, x, b, y);
    TwoCorrect(cap, h, b, y, a, x);
    TwoInserted(cap, h, a, x, b, y);
    TwoInserted(cap, h, b, y, a, x);
    var home := Home(h(a.text), cap);
    assert TwoAtHome(cap, h, a, x, b, y)[home].key == a && TwoAtHome(cap, h, b, y, a, x)[home].key == b;
    assert map[a.text := Binding(a, x), b.text := Binding(b, y)]
        == map[b.text := Binding(b, y), a.text := Binding(a, x)];
  }
}
