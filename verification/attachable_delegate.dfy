/**
 * `AttachableDelegate`: an `Attachable` backed by a hash map. Keys and
 * values are never null; a failed call leaves the map as it was.
 */
module AttachableDelegate {
  import opened Options
  import opened Errors
  import opened Chain

  /** `setAttachment_(key, value)`: the new attachment map, or the exception thrown instead. */
  function SetAttachment<K, V>(store: map<K, V>, key: Option<K>, value: Option<V>): (r: Result<map<K, V>>)
    ensures r.Ok? <==> key.Some? && value.Some?
    ensures key.None? ==> r == Err(NullPointer(Argument("key")))
    ensures key.Some? && value.None? ==> r == Err(NullPointer(Argument("value")))
    ensures r.Ok? ==> r.value.Keys == store.Keys + {key.value}
    ensures r.Ok? ==> r.value[key.value] == value.value
    ensures r.Ok? ==> forall k | k in store && k != key.value :: r.value[k] == store[k]
  {
    if key.None? then Err(NullPointer(Argument("key")))
    else if value.None? then Err(NullPointer(Argument("value")))
    else Ok(store[key.value := value.value])
  }

  /** `getAttachment_(key)`; `None` is the `null` returned for an absent key. */
  function GetAttachment<K, V>(store: map<K, V>, key: Option<K>): (r: Result<Option<V>>)
    ensures key.None? ==> r == Err(NullPointer(Argument("key")))
    ensures key.Some? ==> r.Ok? && (r.value.Some? <==> key.value in store)
    ensures key.Some? && key.value in store ==> r.value.value == store[key.value]
  {
    if key.None? then Err(NullPointer(Argument("key")))
    else if key.value in store then Ok(Some(store[key.value]))
    else Ok(None)
  }

  /** Reading a key back yields what was last set for it; other keys read as before. */
  lemma GetAfterSet<K, V>(store: map<K, V>, key: K, value: V, other: K)
    ensures SetAttachment(store, Some(key), Some(value)).Ok?
    ensures GetAttachment(SetAttachment(store, Some(key), Some(value)).value, Some(key)) == Ok(Some(value))
    ensures other != key ==>
      GetAttachment(SetAttachment(store, Some(key), Some(value)).value, Some(other)) == GetAttachment(store, Some(other))
  {
  }

  /** Setting a key twice keeps only the second value. */
  lemma SetOverwrites<K, V>(store: map<K, V>, key: K, v1: V, v2: V)
    ensures SetAttachment(SetAttachment(store, Some(key), Some(v1)).value, Some(key), Some(v2))
      == SetAttachment(store, Some(key), Some(v2))
  {
    assert store[key := v1][key := v2] == store[key := v2];
  }

  /** Setting the value a key already has changes nothing. */
  lemma SetExistingIsNoOp<K, V>(store: map<K, V>, key: K)
    requires key in store
    ensures SetAttachment(store, Some(key), Some(store[key])) == Ok(store)
  {
    assert store[key := store[key]] == store;
  }

  /**
   * An object whose attachments live in a delegate holds `key`, as the
   * inspector sees it, exactly when the delegate returns a non-null value for it.
   */
  lemma DelegateBacksHolds<K, V>(n: Node<K, V>, key: K)
    requires n.attachments.Some?
    ensures GetAttachment(n.attachments.value, Some(key))
      == if n.Holds(key) then Ok(Some(n.attachments.value[key])) else Ok(None)
  {
  }
}
