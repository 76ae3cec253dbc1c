/** Runs: whole sequences of table operations, the answers they give, and what a caller can read
    off those answers. */
module TableRuns {
  import opened Options
  import opened Bits
  import opened RobinHood
  import opened Contents
  import opened HashTables
  import TableSpec

  datatype Op<V> =
    | SetOp(key: Option<KeyRef>, value: Option<V>, allocOk: bool)
    | GetOp(key: Option<KeyRef>)
    | HasOp(key: Option<KeyRef>)
    | GetKeyOp(key: Option<KeyRef>)
    | DeleteOp(key: Option<KeyRef>)
    | CountOp
    | ForeachOp
    | ClearOp

  /** A traversal's answer is what a callback can gather from it: the bindings, without the slot
      order. */
  datatype Answer<V> =
    | SetAnswer(prev: Option<V>, inserted: bool)
    | ValueAnswer(value: Option<V>)
    | KeyAnswer(stored: Option<KeyRef>)
    | HasAnswer(present: bool)
    | CountAnswer(n: nat)
    | ForeachAnswer(gathered: map<string, Binding<V>>)
    | Done

  function ValueOf<V>(b: Option<Binding<V>>): Option<V> {
    match b case Some(x) => Some(x.value) case None => None
  }

  function KeyOf<V>(b: Option<Binding<V>>): Option<KeyRef> {
    match b case Some(x) => Some(x.key) case None => None
  }

  /** One operation on the map. */
  function Step<V>(t: TableSpec.Table<V>, op: Op<V>): (TableSpec.Table<V>, Answer<V>) {
    match op
    case SetOp(key, value, allocOk) =>
      var r := TableSpec.Set(t, key, value, allocOk);
      (r.table, SetAnswer(r.prev, r.inserted))
    case GetOp(key) => (t, ValueAnswer(ValueOf(TableSpec.Get(t, key))))
    case HasOp(key) => (t, HasAnswer(TableSpec.Get(t, key).Some?))
    case GetKeyOp(key) => (t, KeyAnswer(KeyOf(TableSpec.Get(t, key))))
    case DeleteOp(key) => (TableSpec.Delete(t, key), ValueAnswer(ValueOf(TableSpec.Get(t, key))))
    case CountOp => (t, CountAnswer(|t.bindings|))
    case ForeachOp => (t, ForeachAnswer(t.bindings))
    case ClearOp => (TableSpec.Clear(t), Done)
  }

  function RunSpec<V>(t: TableSpec.Table<V>, ops: seq<Op<V>>): (r: (TableSpec.Table<V>, seq<Answer<V>>))
    ensures |r.1| == |ops|
  {
    if ops == [] then (t, [])
    else
      var n := |ops| - 1;
      var (t', answers) := RunSpec(t, ops[..n]);
      var (t'', a) := Step(t', ops[n]);
      (t'', answers + [a])
  }

  /** What a callback that stores its arguments under their keys ends up with. */
  function Gathered<V>(visited: seq<Binding<V>>): map<string, Binding<V>> {
    if visited == [] then map[]
    else
      var last := visited[|visited| - 1];
      Gathered(visited[..|visited| - 1])[last.key.text := last]
  }

  lemma {:induction false} GatheredFrom<V>(visited: seq<Binding<V>>, m: map<string, Binding<V>>)
    requires forall x :: 0 <= x < |visited| ==> visited[x].key.text in m && visited[x] == m[visited[x].key.text]
    ensures forall x :: 0 <= x < |visited| ==> visited[x].key.text in Gathered(visited)
    ensures forall k :: k in Gathered(visited) ==> k in m && Gathered(visited)[k] == m[k]
  {
    if visited != [] {
      GatheredFrom(visited[..|visited| - 1], m);
    }
  }

  lemma GatheredAll<V>(visited: seq<Binding<V>>, m: map<string, Binding<V>>)
    requires forall x :: 0 <= x < |visited| ==> visited[x].key.text in m && visited[x] == m[visited[x].key.text]
    requires forall k :: k in m ==> m[k] in visited && m[k].key.text == k
    ensures Gathered(visited) == m
  {
    hide Gathered;
    GatheredFrom(visited, m);
    forall k | k in m
      ensures k in Gathered(visited)
    {
      var x :| 0 <= x < |visited| && visited[x] == m[k];
    }
  }

  /** One operation on the slot array: same answer, same map. */
  method Perform<V>(ht: HashTable<V>, op: Op<V>) returns (answer: Answer<V>)
    requires ht.Valid()
    modifies ht, ht.entries
    ensures ht.Valid() && (ht.entries == old(ht.entries) || fresh(ht.entries))
    ensures (ht.Abs(), answer) == Step(old(ht.Abs()), op)
  {
    match op {
      case SetOp(key, value, allocOk) =>
        var prev, inserted := ht.Set(key, value, allocOk);
        answer := SetAnswer(prev, inserted);
      case GetOp(key) =>
        var value := ht.Get(key);
        answer := ValueAnswer(value);
      case GetKeyOp(key) =>
        var stored := ht.GetKey(key);
        answer := KeyAnswer(stored);
      case HasOp(key) =>
        var present := ht.Has(key);
        answer := HasAnswer(present);
      case CountOp =>
        var n := ht.Count();
        answer := CountAnswer(n);
      case ForeachOp =>
        var visited := ht.Foreach();
        GatheredAll(visited, ht.bindings);
        answer := ForeachAnswer(Gathered(visited));
      case DeleteOp(key) =>
        var removed := ht.Delete(key);
        answer := ValueAnswer(removed);
      case ClearOp =>
        ht.Clear();
        answer := Done;
    }
  }

  /** The slot array answers every sequence of operations as the map does, and stays valid. */
  method Run<V>(ht: HashTable<V>, ops: seq<Op<V>>) returns (answers: seq<Answer<V>>)
    requires ht.Valid()
    modifies ht, ht.entries
    ensures ht.Valid()
    ensures (ht.Abs(), answers) == RunSpec(old(ht.Abs()), ops)
  {
    hide HashTable.Valid, Step;
    answers := [];
    for i := 0 to |ops|
      invariant ht.Valid() && (ht.entries == old(ht.entries) || fresh(ht.entries))
      invariant (ht.Abs(), answers) == RunSpec(old(ht.Abs()), ops[..i])
    {
      var answer := Perform(ht, ops[i]);
      answers := answers + [answer];
      assert ops[..i + 1][..i] == ops[..i];
    }
    assert ops[..|ops|] == ops;
  }

  /** What the operations so far left stored under `text`, read off the operations and their
      answers alone: a set took effect if and only if it reported a previous value or an
      insertion, and an update keeps the key pointer of the insertion it updates. */
  function Latest<V>(ops: seq<Op<V>>, answers: seq<Answer<V>>, text: string): Option<Binding<V>>
    requires |ops| == |answers|
  {
    if ops == [] then None
    else
      var n := |ops| - 1;
      var before := Latest(ops[..n], answers[..n], text);
      match ops[n]
      case SetOp(key, value, _) =>
        if key.Some? && key.value.text == text && value.Some? && answers[n].SetAnswer?
           && (answers[n].inserted || answers[n].prev.Some?) then
          Some(Binding(if answers[n].inserted || before.None? then key.value else before.value.key, value.value))
        else before
      case DeleteOp(key) => if key.Some? && key.value.text == text then None else before
      case ClearOp => None
      case _ => before
  }

  /** Whatever the run and wherever growth failed in it, a lookup afterwards returns what the
      answers said was stored last. */
  lemma {:induction false} LookupIsLatest<V>(cap: nat, ops: seq<Op<V>>, key: KeyRef)
    ensures var (t, answers) := RunSpec(TableSpec.Table(map[], cap), ops);
            TableSpec.Get(t, Some(key)) == Latest(ops, answers, key.text)
    decreases |ops|
  {
    if ops != [] {
      var n := |ops| - 1;
      LookupIsLatest(cap, ops[..n], key);
      var (t, answers) := RunSpec(TableSpec.Table(map[], cap), ops[..n]);
      var (t', a) := Step(t, ops[n]);
      assert (answers + [a])[..n] == answers;
    }
  }

  /** `m` is what the operations so far left stored, read off the operations and their answers. */
  ghost predicate Holds<V>(ops: seq<Op<V>>, answers: seq<Answer<V>>, m: map<string, Binding<V>>)
    requires |ops| == |answers|
  {
    forall text :: Latest(ops, answers, text) == if text in m then Some(m[text]) else None
  }

  ghost predicate HoldsKeys<V>(ops: seq<Op<V>>, answers: seq<Answer<V>>, keys: set<string>)
    requires |ops| == |answers|
  {
    forall text :: text in keys <==> Latest(ops, answers, text).Some?
  }

  /** The answer `a` to `op` after a run, in terms of the operations and answers before it. A set
      reports the value it replaces and whether the key was new. It changes nothing and reports
      nothing on a null argument, and otherwise only when growth fails, which takes at least six
      stored keys and either no memory or a table at its maximum capacity. */
  ghost predicate Answered<V>(op: Op<V>, a: Answer<V>, ops: seq<Op<V>>, answers: seq<Answer<V>>)
    requires |ops| == |answers|
  {
    match op
    case SetOp(key, value, allocOk) =>
      && a.SetAnswer?
      && if key.None? || value.None? then a.prev.None? && !a.inserted
         else
           var before := Latest(ops, answers, key.value.text);
           || (a.inserted && a.prev.None? && before.None?)
           || (!a.inserted && before.Some? && a.prev == Some(before.value.value))
           || (!a.inserted && a.prev.None? && GrowthFails(ops, answers, allocOk))
    case GetOp(key) =>
      a == ValueAnswer(if key.None? then None else ValueOf(Latest(ops, answers, key.value.text)))
    case HasOp(key) =>
      a == HasAnswer(key.Some? && Latest(ops, answers, key.value.text).Some?)
    case GetKeyOp(key) =>
      a == KeyAnswer(if key.None? then None else KeyOf(Latest(ops, answers, key.value.text)))
    case DeleteOp(key) =>
      a == ValueAnswer(if key.None? then None else ValueOf(Latest(ops, answers, key.value.text)))
    case CountOp => a.CountAnswer? && exists keys :: HoldsKeys(ops, answers, keys) && a.n == |keys|
    case ForeachOp => a.ForeachAnswer? && Holds(ops, answers, a.gathered)
    case ClearOp => a.Done?
  }

  ghost predicate GrowthFails<V>(ops: seq<Op<V>>, answers: seq<Answer<V>>, allocOk: bool)
    requires |ops| == |answers|
  {
    exists keys :: HoldsKeys(ops, answers, keys) && |keys| >= 6 && (!allocOk || |keys| >= 0x6000_0000)
  }

  lemma RunHolds<V>(cap: nat, ops: seq<Op<V>>)
    ensures var (t, answers) := RunSpec(TableSpec.Table(map[], cap), ops);
            && t.capacity >= cap && Holds(ops, answers, t.bindings)
            && HoldsKeys(ops, answers, t.bindings.Keys) && |t.bindings.Keys| == |t.bindings|
  {
    CapacityGrows(TableSpec.Table(map[], cap), ops);
    var (t, answers) := RunSpec(TableSpec.Table(map[], cap), ops);
    forall text
      ensures Latest(ops, answers, text) == if text in t.bindings then Some(t.bindings[text]) else None
    {
      LookupIsLatest(cap, ops, KeyRef(0, text));
    }
    hide RunSpec, Latest;
    forall text
      ensures text in t.bindings.Keys <==> Latest(ops, answers, text).Some?
    {
    }
  }

  lemma {:induction false} CapacityGrows<V>(t: TableSpec.Table<V>, ops: seq<Op<V>>)
    ensures RunSpec(t, ops).0.capacity >= t.capacity
  {
    if ops != [] { CapacityGrows(t, ops[..|ops| - 1]); }
  }

  /** The next operation after any run is answered from what the run's answers said was stored. */
  lemma NextAnswer<V>(cap: nat, ops: seq<Op<V>>, op: Op<V>)
    requires cap >= HT_MIN_CAP
    ensures var (t, answers) := RunSpec(TableSpec.Table(map[], cap), ops);
            Answered(op, Step(t, op).1, ops, answers)
  {
    var (t, answers) := RunSpec(TableSpec.Table(map[], cap), ops);
    RunHolds(cap, ops);
    hide RunSpec, Latest;
    if op.SetOp? && op.key.Some? { LookupIsLatest(cap, ops, op.key.value); }
  }

  /** Every answer of a run follows from the operations and answers before it. */
  lemma {:induction false} AllAnswered<V>(cap: nat, ops: seq<Op<V>>)
    requires cap >= HT_MIN_CAP
    ensures var (_, answers) := RunSpec(TableSpec.Table(map[], cap), ops);
            forall i :: 0 <= i < |ops| ==> Answered(ops[i], answers[i], ops[..i], answers[..i])
    decreases |ops|
  {
    if ops != [] {
      var n := |ops| - 1;
      AllAnswered(cap, ops[..n]);
      NextAnswer(cap, ops[..n], ops[n]);
      var (t, answers) := RunSpec(TableSpec.Table(map[], cap), ops[..n]);
      var answers' := RunSpec(TableSpec.Table(map[], cap), ops).1;
      hide RunSpec, Answered, Step;
      forall i | 0 <= i < |ops|
        ensures Answered(ops[i], answers'[i], ops[..i], answers'[..i])
      {
        assert ops[..n][..i] == ops[..i] && answers'[..i] == answers[..i];
      }
    }
  }

  /** The same of the slot array: a caller who creates a table and runs any operations can check
      every answer against the operations and answers before it. */
  method FreshRun<V>(initialCapacity: uint32, hashFn: HashFn, headerOk: bool, entriesOk: bool, ops: seq<Op<V>>)
    returns (created: bool, answers: seq<Answer<V>>)
    ensures created <==> headerOk && entriesOk
    ensures created ==> |answers| == |ops|
    ensures created ==> forall i :: 0 <= i < |ops| ==> Answered(ops[i], answers[i], ops[..i], answers[..i])
  {
    hide HashTable.Valid, RunSpec, Answered;
    created, answers := false, [];
    var ht := HashTable<V>.Create(initialCapacity, hashFn, headerOk, entriesOk);
    if ht != null {
      AllAnswered(ht.capacity, ops);
      answers := Run(ht, ops);
      created := true;
    }
  }

  /** A caller who creates a table, runs any operations and then looks a
      key up gets the value, and the key pointer, that the answers said were stored last. */
  method LookupAfterRun<V>(initialCapacity: uint32, hashFn: HashFn, headerOk: bool, entriesOk: bool, ops: seq<Op<V>>,
                           key: KeyRef)
    returns (created: bool, answers: seq<Answer<V>>, value: Option<V>, stored: Option<KeyRef>)
    ensures created <==> headerOk && entriesOk
    ensures created ==> |answers| == |ops|
    ensures created ==> value == ValueOf(Latest(ops, answers, key.text))
    ensures created ==> stored == KeyOf(Latest(ops, answers, key.text))
  {
    hide HashTable.Valid, RunSpec, Latest;
    created, answers, value, stored := false, [], None, None;
    var ht := HashTable<V>.Create(initialCapacity, hashFn, headerOk, entriesOk);
    if ht != null {
      LookupIsLatest(ht.capacity, ops, key);
      answers := Run(ht, ops);
      value := ht.Get(Some(key));
      stored := ht.GetKey(Some(key));
      created := true;
    }
  }
}
