/** The string-keyed Robin Hood hash table: an array updated in place, proved to behave as the
    map it stores. */
module HashTables {
  import opened Options
  import opened Bits
  import opened Ring
  import opened RobinHood
  import opened Contents
  import opened Probing
  import TableSpec

  lemma Doubled(cap: nat)
    requires IsPow2(cap) && cap < MAX_CAPACITY
    ensures IsPow2(2 * cap) && 2 * cap <= MAX_CAPACITY
  {
    var k: nat :| cap == Pow2(k);
    assert 2 * cap == Pow2(k + 1);
    Pow2Known();
    if 31 <= k { Pow2Mono(31, k); }
    Pow2Mono(k + 1, 31);
  }

  /** Below the load limit there is room for one more entry within it. */
  lemma LoadRoom(count: nat, cap: nat)
    requires IsPow2(cap) && HT_MIN_CAP <= cap && 4 * count < 3 * cap
    ensures 4 * (count + 1) <= 3 * cap
  {
    var k: nat :| cap == Pow2(k);
    if k <= 2 { Pow2Mono(k, 2); }
    var q := Pow2(k - 2);
    assert cap == 2 * Pow2(k - 1) == 4 * q;
    assert count < 3 * q;
  }

  /** `cap` is the least power of two that is at least 8 and at least `v`, or 2^31 above that. */
  ghost predicate LeastCapacity(v: nat, cap: nat) {
    && IsPow2(cap) && HT_MIN_CAP <= cap <= MAX_CAPACITY
    && (if v <= MAX_CAPACITY then v <= cap else cap == MAX_CAPACITY)
    && forall k: nat :: v <= Pow2(k) && HT_MIN_CAP <= Pow2(k) <= MAX_CAPACITY ==> cap <= Pow2(k)
  }

  class HashTable<V> {
    var entries: array<Slot<V>>
    var capacity: uint32
    var count: uint32
    var mask: uint32
    const hashFn: HashFn

    /** The bindings the live slots store. */
    ghost var bindings: map<string, Binding<V>>

    ghost predicate Valid()
      reads this, entries
    {
      && entries.Length == capacity && mask == capacity - 1
      && IsPow2(capacity) && HT_MIN_CAP <= capacity <= MAX_CAPACITY
      && 4 * count <= 3 * capacity
      && count == |bindings| == |LiveSlots(entries[..])|
      && Robin(entries[..], hashFn)
      && Stores(entries[..], bindings)
    }

    ghost function Abs(): TableSpec.Table<V>
      reads this
    {
      TableSpec.Table(bindings, capacity)
    }

    constructor (cap: uint32, hashFn: HashFn)
      requires IsPow2(cap) && HT_MIN_CAP <= cap <= MAX_CAPACITY
      ensures Valid() && fresh(entries) && this.hashFn == hashFn
      ensures Abs() == TableSpec.Table(map[], cap)
    {
      entries := new Slot<V>[cap](_ => Empty);
      capacity, count, mask := cap, 0, cap - 1;
      this.hashFn := hashFn;
      bindings := map[];
      new;
      StoresNothing(entries[..]);
    }

    /** Allocates an empty table, or returns null when one of the two allocations fails. */
    static method Create(initialCapacity: uint32, hashFn: HashFn, headerOk: bool, entriesOk: bool)
      returns (ht: HashTable?<V>)
      ensures ht == null <==> !(headerOk && entriesOk)
      ensures ht != null ==> ht.Valid() && fresh(ht) && fresh(ht.entries) && ht.hashFn == hashFn
      ensures ht != null ==> ht.bindings == map[] && LeastCapacity(initialCapacity, ht.capacity)
    {
      if !headerOk {
        return null;
      }
      var cap := NextPow2(initialCapacity);
      if !entriesOk {
        return null;
      }
      ht := new HashTable<V>(cap, hashFn);
    }

    /** The probe loop shared by lookup and deletion. It stops at the key's slot, at an empty
        slot, or at an entry closer to home than the search is. */
    method Find(key: KeyRef) returns (idx: nat, found: bool, ghost probes: nat)
      requires Valid()
      ensures found <==> key.text in bindings
      ensures found ==> HasKey(entries[..], idx, key.text)
      ensures probes <= count + 1
    {
      hide Robin, Stores, LiveSlots, IsPow2;
      ghost var s := entries[..];
      var hash := hashFn(key.text);
      ghost var e := SearchStart(s, hashFn, key.text);
      idx := And(hash, mask);
      var psl: uint32 := 1;
      found := false;
      probes := 1;
      while true
        invariant Searching(s, hashFn, key.text, e, idx, psl) && probes == psl
        decreases capacity - psl
      {
        SearchStep(s, hashFn, bindings, key.text, e, idx, psl);
        var slot := entries[idx];
        if Psl(slot) == 0 {
          return;
        }
        if psl > slot.psl {
          return;
        }
        if slot.hash == hash && slot.key.text == key.text {
          found := true;
          return;
        }
        MaskStep(idx, capacity, mask);
        psl, probes := psl + 1, probes + 1;
        idx := And(idx + 1, mask);
      }
    }

    method Get(key: Option<KeyRef>) returns (value: Option<V>)
      requires Valid()
      ensures value == match TableSpec.Get(Abs(), key) case Some(b) => Some(b.value) case None => None
    {
      if key.None? {
        return None;
      }
      var idx, found, _ := Find(key.value);
      if !found {
        return None;
      }
      assert Agrees(entries[..], idx, bindings);
      value := Some(entries[idx].value);
    }

    method Has(key: Option<KeyRef>) returns (present: bool)
      requires Valid()
      ensures present <==> key.Some? && key.value.text in bindings
    {
      if key.None? {
        return false;
      }
      var value := Get(key);
      present := value.Some?;
    }

    /** The stored key pointer, not the caller's. */
    method GetKey(key: Option<KeyRef>) returns (stored: Option<KeyRef>)
      requires Valid()
      ensures stored == match TableSpec.Get(Abs(), key) case Some(b) => Some(b.key) case None => None
    {
      if key.None? {
        return None;
      }
      var idx, found, _ := Find(key.value);
      if !found {
        return None;
      }
      assert Agrees(entries[..], idx, bindings);
      stored := Some(entries[idx].key);
    }

    /** Insertion below the load limit. */
    method Insert(key: KeyRef, value: V) returns (prev: Option<V>, inserted: bool)
      requires Valid() && 4 * count < 3 * capacity
      modifies this`count, this`bindings, entries
      ensures Valid()
      ensures TableSpec.Set(old(Abs()), Some(key), Some(value), true) == TableSpec.SetResult(Abs(), prev, inserted)
      ensures inserted <==> key.text !in old(bindings)
      ensures prev == if inserted then None else Some(old(bindings)[key.text].value)
      ensures bindings
           == old(bindings)[key.text := Binding(if inserted then key else old(bindings)[key.text].key, value)]
      ensures if inserted then LikeLinearProbing(old(entries[..]), Home(hashFn(key.text), capacity), entries[..])
              else SameShape(old(entries[..]), entries[..])
    {
      hide Robin, Stores, LiveSlots, InsertWalk, LikeLinearProbing, SameShape, IsPow2;
      InsertCorrect(entries[..], hashFn, bindings, key, value, capacity);
      LoadRoom(count, capacity);
      prev, inserted := InsertLoop(entries, mask, Live(key, value, hashFn(key.text), 1));
      if inserted {
        count := count + 1;
      }
      bindings := Bound(bindings, key, value);
    }

    /** Doubles the capacity into a new array, or leaves the table alone when it is at the
        maximum or allocation fails. */
    method Resize(allocOk: bool) returns (ok: bool)
      requires Valid()
      modifies this`entries, this`capacity, this`mask
      ensures Valid()
      ensures ok <==> old(capacity) < MAX_CAPACITY && allocOk
      ensures ok ==> fresh(entries) && capacity == 2 * old(capacity)
      ensures !ok ==> entries == old(entries) && capacity == old(capacity)
    {
      hide Robin, Stores, LiveSlots, IsPow2;
      if capacity > UINT32_MAX / 2 {
        return false;
      }
      var newCap: uint32 := capacity * 2;
      var newMask: uint32 := newCap - 1;
      if !allocOk {
        return false;
      }
      Doubled(capacity);
      var newEntries := new Slot<V>[newCap](_ => Empty);
      CopyAll(entries, newEntries, newMask, hashFn, bindings);
      StoresSize(newEntries[..], bindings);
      entries, capacity, mask := newEntries, newCap, newMask;
      ok := true;
    }

    /** Insert or update. */
    method Set(key: Option<KeyRef>, value: Option<V>, allocOk: bool) returns (prev: Option<V>, inserted: bool)
      requires Valid()
      modifies this, entries
      ensures Valid() && (entries == old(entries) || fresh(entries))
      ensures TableSpec.Set(old(Abs()), key, value, allocOk) == TableSpec.SetResult(Abs(), prev, inserted)
      ensures key.None? || value.None? ==> !inserted && prev.None?
      ensures inserted ==>
                && key.Some? && value.Some? && key.value.text !in old(bindings) && prev.None?
                && bindings == old(bindings)[key.value.text := Binding(key.value, value.value)]
      ensures prev.Some? ==>
                && key.Some? && value.Some? && key.value.text in old(bindings) && !inserted
                && var before := old(bindings)[key.value.text];
                && prev == Some(before.value)
                && bindings == old(bindings)[key.value.text := Binding(before.key, value.value)]
      ensures !inserted && prev.None? ==> bindings == old(bindings)
    {
      hide Robin, Stores, LiveSlots, IsPow2, LikeLinearProbing, SameShape;
      prev, inserted := None, false;
      if key.None? || value.None? {
        return;
      }
      if count * 4 >= capacity * 3 {
        var ok := Resize(allocOk);
        if !ok {
          return;
        }
      }
      prev, inserted := Insert(key.value, value.value);
    }

    /** Removes the key's entry and closes the hole by a backward shift. */
    method Delete(key: Option<KeyRef>) returns (removed: Option<V>)
      requires Valid()
      modifies this`count, this`bindings, entries
      ensures Valid()
      ensures Abs() == TableSpec.Delete(old(Abs()), key)
      ensures removed == match TableSpec.Get(old(Abs()), key) case Some(b) => Some(b.value) case None => None
    {
      hide Robin, Stores, LiveSlots, IsPow2;
      if key.None? {
        return None;
      }
      var idx, found, _ := Find(key.value);
      if !found {
        assert bindings - {key.value.text} == bindings;
        return None;
      }
      StoredValue(entries[..], bindings, idx);
      removed := Some(entries[idx].value);
      RemoveAt(idx);
    }

    method RemoveAt(idx: nat)
      requires Valid() && idx < capacity && entries[idx].Live?
      modifies this`count, this`bindings, entries
      ensures Valid() && old(entries[idx].key.text) in old(bindings)
      ensures old(bindings[entries[idx].key.text]) == old(Binding(entries[idx].key, entries[idx].value))
      ensures bindings == old(bindings) - {old(entries[idx].key.text)}
    {
      hide Robin, Stores, LiveSlots, IsPow2, ShiftWalk;
      DeleteCorrect(entries[..], hashFn, bindings, idx, capacity);
      count := count - 1;
      bindings := bindings - {entries[idx].key.text};
      ShiftLoop(entries, mask, idx);
    }

    method Count() returns (n: uint32)
      requires Valid()
      ensures n == |bindings|
    {
      n := count;
    }

    /** Passes every stored key and value to a callback, slot by slot; `visited` is the sequence
        of its arguments. */
    method Foreach() returns (visited: seq<Binding<V>>)
      requires Valid()
      ensures |visited| == |bindings|
      ensures forall k :: k in bindings ==> bindings[k] in visited && bindings[k].key.text == k
      ensures forall x :: 0 <= x < |visited| ==>
                visited[x].key.text in bindings && visited[x] == bindings[visited[x].key.text]
      ensures forall x, y :: 0 <= x < y < |visited| ==> visited[x].key.text != visited[y].key.text
    {
      hide Robin, Stores, LiveSlots, IsPow2;
      visited := [];
      ghost var s, at: seq<nat> := entries[..], [];
      var i: nat := 0;
      while i < capacity
        invariant i <= capacity && Enumerates(s, i, at, visited)
      {
        EnumerationStep(s, hashFn, i, at, visited);
        if Psl(entries[i]) > 0 {
          visited := visited + [Binding(entries[i].key, entries[i].value)];
          at := at + [i];
        }
        i := i + 1;
      }
      EnumerationComplete(s, bindings, at, visited);
    }

    method Clear()
      requires Valid()
      modifies this`count, this`bindings, entries
      ensures Valid() && Abs() == TableSpec.Clear(old(Abs()))
    {
      forall i | 0 <= i < capacity {
        entries[i] := Empty;
      }
      count := 0;
      bindings := map[];
      EmptyTable(entries[..], hashFn);
    }
  }

  /** The probe loop of insertion, in place: it computes `InsertWalk`. */
  method InsertLoop<V>(a: array<Slot<V>>, mask: uint32, entry: Slot<V>) returns (prev: Option<V>, inserted: bool)
    requires IsPow2(a.Length) && a.Length == mask + 1 && entry.Live?
    modifies a
    ensures match InsertWalk(old(a[..]), Home(entry.hash, a.Length), entry, a.Length)
            case Placed(slots) => inserted && prev == None && a[..] == slots
            case Updated(slots, before) => !inserted && prev == Some(before) && a[..] == slots
            case Exhausted => !inserted && prev == None
  {
    MaskHome(entry.hash, a.Length, mask);
    var idx: nat := And(entry.hash, mask);
    var cur := entry;
    prev, inserted := None, false;
    var probe: nat := 0;
    while probe < a.Length
      invariant idx < a.Length && probe <= a.Length && cur.Live?
      invariant InsertWalk(a[..], idx, cur, a.Length - probe)
             == InsertWalk(old(a[..]), Home(entry.hash, a.Length), entry, a.Length)
    {
      ghost var s, carried := a[..], cur;
      var slot := a[idx];
      if Psl(slot) == 0 {
        a[idx] := cur;
        assert a[..] == s[idx := cur];
        inserted := true;
        return;
      }
      if slot.hash == cur.hash && slot.key.text == cur.key.text {
        prev := Some(slot.value);
        a[idx] := slot.(value := cur.value);
        assert a[..] == s[idx := slot.(value := cur.value)];
        return;
      }
      if cur.psl > slot.psl {
        a[idx] := cur;
        cur := slot;
      }
      assert (a[..], cur) == Stolen(s, idx, carried);
      cur := cur.(psl := Inc(cur.psl));
      MaskStep(idx, a.Length, mask);
      idx := And(idx + 1, mask);
      probe := probe + 1;
    }
  }

  /** Rehashes every live slot of `a` into the empty array `b`. */
  method CopyAll<V>(a: array<Slot<V>>, b: array<Slot<V>>, newMask: uint32, h: HashFn, ghost m: map<string, Binding<V>>)
    requires a != b && IsPow2(b.Length) && b.Length == newMask + 1 && 1 < b.Length <= MAX_CAPACITY
    requires Robin(a[..], h) && Stores(a[..], m) && |m| <= b.Length
    requires forall i :: 0 <= i < b.Length ==> b[..][i].Empty?
    modifies b
    ensures Robin(b[..], h) && Stores(b[..], m)
  {
    ghost var s, done: map<string, Binding<V>> := a[..], map[];
    EmptyTable(b[..], h);
    var i: nat := 0;
    while i < a.Length
      invariant i <= a.Length && a[..] == s
      invariant Robin(b[..], h) && Stores(b[..], done)
      invariant Copied(s, i, m, done)
    {
      var e := a[i];
      if Psl(e) != 0 {
        assert WellPlaced(s, i, h);
        CopyStep(s, i, m, done);
        RehashCorrect(b[..], h, done, e.key, e.value);
        RehashLoop(b, newMask, Live(e.key, e.value, e.hash, 1));
        done := done[e.key.text := Binding(e.key, e.value)];
      } else {
        CopySkip(s, h, i, m, done);
      }
      i := i + 1;
    }
    CopyEnd(s, m, done);
  }

  /** The rehash loop for one entry, in place: it computes `RehashWalk`. */
  method RehashLoop<V>(a: array<Slot<V>>, mask: uint32, entry: Slot<V>)
    requires IsPow2(a.Length) && a.Length == mask + 1 && entry.Live?
    requires RehashWalk(a[..], Home(entry.hash, a.Length), entry, a.Length).Some?
    modifies a
    ensures RehashWalk(old(a[..]), Home(entry.hash, a.Length), entry, a.Length) == Some(a[..])
  {
    MaskHome(entry.hash, a.Length, mask);
    hide IsPow2, And, Home, Next;
    var idx: nat := And(entry.hash, mask);
    var cur := entry;
    ghost var probes: nat := a.Length;
    while true
      invariant idx < a.Length && cur.Live?
      invariant RehashWalk(a[..], idx, cur, probes)
             == RehashWalk(old(a[..]), Home(entry.hash, a.Length), entry, a.Length)
      decreases probes
    {
      ghost var s, carried := a[..], cur;
      var slot := a[idx];
      if Psl(slot) == 0 {
        a[idx] := cur;
        assert a[..] == s[idx := cur];
        return;
      }
      if cur.psl > slot.psl {
        a[idx] := cur;
        cur := slot;
      }
      assert (a[..], cur) == Stolen(s, idx, carried);
      cur := cur.(psl := Inc(cur.psl));
      MaskStep(idx, a.Length, mask);
      idx := And(idx + 1, mask);
      probes := probes - 1;
    }
  }

  /** The backward shift, in place: it computes `ShiftWalk`. */
  method ShiftLoop<V>(a: array<Slot<V>>, mask: uint32, hole: nat)
    requires IsPow2(a.Length) && a.Length == mask + 1 && hole < a.Length
    requires ShiftWalk(a[..], hole, a.Length).Some?
    modifies a
    ensures ShiftWalk(old(a[..]), hole, a.Length) == Some(a[..])
  {
    var idx: nat := hole;
    ghost var n: nat := a.Length;
    while true
      invariant idx < a.Length
      invariant ShiftWalk(a[..], idx, n) == ShiftWalk(old(a[..]), hole, a.Length)
      decreases n
    {
      ghost var s := a[..];
      MaskStep(idx, a.Length, mask);
      var nextIdx := And(idx + 1, mask);
      var next := a[nextIdx];
      if Psl(next) <= 1 {
        a[idx] := Empty;
        assert a[..] == s[idx := Empty];
        return;
      }
      a[idx] := next;
      a[idx] := a[idx].(psl := a[idx].psl - 1);
      assert a[..] == s[idx := next.(psl := next.psl - 1)];
      idx := nextIdx;
      n := n - 1;
    }
  }

  /** What every reachable table satisfies: a power-of-two capacity with its mask, a load of at most
      75%, hence an empty slot, and no probe length above the number of entries. */
  lemma Occupancy<V>(ht: HashTable<V>)
    requires ht.Valid()
    ensures IsPow2(ht.capacity) && HT_MIN_CAP <= ht.capacity <= MAX_CAPACITY && ht.mask == ht.capacity - 1
    ensures 4 * ht.count <= 3 * ht.capacity && exists e :: 0 <= e < ht.capacity && ht.entries[e].Empty?
    ensures forall i :: 0 <= i < ht.capacity ==> Psl(ht.entries[i]) <= ht.count
  {
    var s := ht.entries[..];
    var e := FindFirstEmpty(s, 0);
    assert ht.entries[e].Empty?;
    forall i | 0 <= i < ht.capacity
      ensures Psl(ht.entries[i]) <= ht.count
    {
      PslAtMostLive(s, ht.hashFn, i);
    }
  }

  /** Two tables of one capacity holding the same keys have the same probe length in every slot,
      however they got there. */
  lemma LayoutFromKeys<V>(a: HashTable<V>, b: HashTable<V>)
    requires a.Valid() && b.Valid() && a.hashFn == b.hashFn
    requires a.capacity == b.capacity && a.bindings.Keys == b.bindings.Keys
    ensures forall i :: 0 <= i < a.capacity ==> Psl(a.entries[i]) == Psl(b.entries[i])
  {
    KeysLayout(a.entries[..], a.bindings, b.entries[..], b.bindings, a.hashFn);
    forall i | 0 <= i < a.capacity
      ensures Psl(a.entries[i]) == Psl(b.entries[i])
    {
      assert Psl(a.entries[..][i]) == Psl(b.entries[..][i]);
    }
  }

  lemma AddRemove<V>(m: map<string, Binding<V>>, k: string, b: Binding<V>)
    requires k !in m
    ensures m[k := b] - {k} == m
  {
  }

  /** Setting a fresh key below the load limit and deleting it again restores every probe
      length. */
  method SetThenDelete<V>(ht: HashTable<V>, key: KeyRef, value: V)
    requires ht.Valid() && key.text !in ht.bindings && !TableSpec.Loaded(ht.Abs())
    modifies ht, ht.entries
    ensures ht.Valid() && ht.Abs() == old(ht.Abs()) && (ht.entries == old(ht.entries) || fresh(ht.entries))
    ensures forall i :: 0 <= i < ht.capacity ==> Psl(ht.entries[..][i]) == Psl(old(ht.entries[..])[i])
  {
    hide Robin, Stores, LiveSlots, IsPow2;
    ghost var s, m := ht.entries[..], ht.bindings;
    var _, _ := ht.Set(Some(key), Some(value), false);
    AddRemove(m, key.text, Binding(key, value));
    var _ := ht.Delete(Some(key));
    KeysLayout(ht.entries[..], m, s, m, ht.hashFn);
  }
}
