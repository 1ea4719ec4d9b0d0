/**
 * `InternalUtils`: a second `unwrapNonNull`, whose message names the
 * instance as well as its class. Nothing in the library calls it.
 */
module InternalUtils {
  import opened Refs
  import opened Errors
  import opened Chain
  import Inspector

  /**
   * `unwrapNonNull(wrapper)`: cast to `Wrapper`, call `unwrap`, reject a
   * null result. A null argument fails at the call, a non-`Wrapper` at the cast.
   */
  function UnwrapNonNull<K, V>(h: Heap<K, V>, wrapper: Ref): (r: Result<NodeId>)
    requires Closed(h) && RefIn(wrapper, h.Keys)
    ensures r.Ok? <==> wrapper.Obj? && h[wrapper.id].IsWrapper() && h[wrapper.id].shape.unwrap.Obj?
    ensures r.Ok? ==> r.value in h && h[wrapper.id].shape.unwrap == Obj(r.value)
    ensures wrapper.Null? ==> r == Err(NullPointer(Receiver))
    ensures wrapper.Obj? && !h[wrapper.id].IsWrapper() ==> r == Err(ClassCast(h[wrapper.id].cls))
    ensures wrapper.Obj? && h[wrapper.id].IsWrapper() && h[wrapper.id].shape.unwrap.Null?
      ==> r == Err(NullPointer(UnwrapOfInstance(wrapper.id, h[wrapper.id].cls)))
  {
    match wrapper
    case Null => Err(NullPointer(Receiver))
    case Obj(w) =>
      var n := h[w];
      if !n.IsWrapper() then Err(ClassCast(n.cls))
      else match n.shape.unwrap
        case Null => Err(NullPointer(UnwrapOfInstance(w, n.cls)))
        case Obj(next) => Ok(next)
  }

  /**
   * On a `Wrapper`, this helper and the inspector's own `unwrapNonNull` agree:
   * the same instance, or a `NullPointerException` about the same class.
   */
  lemma AgreesWithInspector<K, V>(h: Heap<K, V>, w: NodeId)
    requires Closed(h) && w in h && h[w].IsWrapper()
    ensures UnwrapNonNull(h, Obj(w)).Ok? <==> Inspector.UnwrapNonNull(h, w).Ok?
    ensures UnwrapNonNull(h, Obj(w)).Ok? ==> UnwrapNonNull(h, Obj(w)).value == Inspector.UnwrapNonNull(h, w).value
    ensures UnwrapNonNull(h, Obj(w)).Err? ==>
      && KindOf(UnwrapNonNull(h, Obj(w)).error) == KindOf(Inspector.UnwrapNonNull(h, w).error) == NullPointerException
      && UnwrapNonNull(h, Obj(w)).error.site.wrapper == Inspector.UnwrapNonNull(h, w).error.site.wrapper
  {
  }
}
