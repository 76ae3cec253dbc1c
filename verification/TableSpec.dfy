/** The table as its callers see it: a finite map with a capacity. These functions are the
    reference the slot array is proved to agree with. */
module TableSpec {
  import opened Options
  import opened Bits
  import opened RobinHood
  import opened Contents

  datatype Table<V> = Table(bindings: map<string, Binding<V>>, capacity: nat)

  datatype SetResult<V> = SetResult(table: Table<V>, prev: Option<V>, inserted: bool)

  /** At or above 75% load. */
  predicate Loaded<V>(t: Table<V>) {
    |t.bindings| * 4 >= t.capacity * 3
  }

  /** Insert or update. A null key or value, or a table that has to grow and cannot, changes
      nothing. Growth is decided before the key is looked for, so an update can grow too. */
  function Set<V>(t: Table<V>, key: Option<KeyRef>, value: Option<V>, allocOk: bool): SetResult<V> {
    if key.None? || value.None? || (Loaded(t) && (t.capacity >= MAX_CAPACITY || !allocOk)) then
      SetResult(t, None, false)
    else
      var cap := if Loaded(t) then 2 * t.capacity else t.capacity;
      var text := key.value.text;
      if text in t.bindings then
        var b := t.bindings[text].(value := value.value);
        SetResult(Table(t.bindings[text := b], cap), Some(t.bindings[text].value), false)
      else
        SetResult(Table(t.bindings[text := Binding(key.value, value.value)], cap), None, true)
  }

  function Get<V>(t: Table<V>, key: Option<KeyRef>): Option<Binding<V>> {
    if key.Some? && key.value.text in t.bindings then Some(t.bindings[key.value.text]) else None
  }

  function Delete<V>(t: Table<V>, key: Option<KeyRef>): Table<V> {
    if key.Some? then t.(bindings := t.bindings - {key.value.text}) else t
  }

  function Clear<V>(t: Table<V>): Table<V> {
    t.(bindings := map[])
  }
}
