/**
 * The wrapper-chain inspection engine. `Travel` is the single traversal:
 * every public inspection hands it a visitor.
 *
 * Java visitors are closures that may keep state (a list they add to, a
 * holder they overwrite) and may throw. Here a visitor receives a state
 * and returns `Continue` with the next state, `Stop` with a result (Java's
 * non-empty `Optional`), or `Throw` with an exception.
 */
module Inspector {
  import opened Options
  import opened Refs
  import opened Errors
  import opened Types
  import opened Chain

  datatype Step<S, T> = Continue(state: S) | Stop(value: T) | Throw(error: Error)

  /** The result of a traversal: the first present visitor result, exhaustion (with the visitor's final state), or an exception. */
  datatype Outcome<S, T> = Found(value: T) | Exhausted(state: S) | Failed(error: Error)

  type Visitor<!K, !V, !S, T> = (S, NodeId, Node<K, V>) -> Step<S, T>

  /** A predicate that may throw (`Predicate<? super W>`). */
  type Test<!K, !V> = (NodeId, Node<K, V>) -> Result<bool>

  /** A stateful action that may throw (`Consumer<? super W>`). */
  type Action<!K, !V, !S> = (S, NodeId, Node<K, V>) -> Result<S>

  /** `unwrap` of a `Wrapper` with a null check. */
  function UnwrapNonNull<K, V>(h: Heap<K, V>, w: NodeId): (r: Result<NodeId>)
    requires Closed(h) && w in h && h[w].IsWrapper()
    ensures r.Ok? ==> r.value in h && h[w].shape.unwrap == Obj(r.value)
    ensures r.Err? ==> h[w].shape.unwrap.Null? && r.error == NullPointer(UnwrapOf(h[w].cls))
  {
    match h[w].shape.unwrap
    case Null => Err(NullPointer(UnwrapOf(h[w].cls)))
    case Obj(next) => Ok(next)
  }

  /** `adaptee` of a `WrapperAdapter` with a null check and a non-`Wrapper` check. */
  function AdapteeNonWrapper<K, V>(h: Heap<K, V>, w: NodeId): (r: Result<NodeId>)
    requires Closed(h) && w in h && h[w].IsAdapter()
    ensures r.Ok? <==> AdapteeContract(h, w)
    ensures r.Ok? ==> r.value in h && h[w].shape.adaptee == Obj(r.value) && !h[r.value].IsWrapper()
    ensures h[w].shape.adaptee.Null? ==> r == Err(NullPointer(AdapteeOf(h[w].cls)))
    ensures h[w].shape.adaptee.Obj? && h[h[w].shape.adaptee.id].IsWrapper()
      ==> r == Err(AdapteeIsWrapper(h[h[w].shape.adaptee.id].cls, h[w].cls))
  {
    var n := h[w];
    match n.shape.adaptee
    case Null => Err(NullPointer(AdapteeOf(n.cls)))
    case Obj(a) =>
      if h[a].IsWrapper() then Err(AdapteeIsWrapper(h[a].cls, n.cls)) else Ok(a)
  }

  /** Processes the adaptee of an adapter; a non-adapter has nothing to add. */
  function VisitAdaptee<K, V, S, T>(h: Heap<K, V>, w: NodeId, visit: Visitor<K, V, S, T>, s: S): Step<S, T>
    requires Closed(h) && w in h
  {
    if !h[w].IsAdapter() then Continue(s)
    else match AdapteeNonWrapper(h, w)
      case Err(e) => Throw(e)
      case Ok(a) => visit(s, a, h[a])
  }

  /**
   * One round of the traversal loop at instance `w`; `history` holds the
   * chain instances walked before `w`.
   */
  function Walk<K, V, S, T>(h: Heap<K, V>, w: NodeId, history: set<NodeId>, visit: Visitor<K, V, S, T>, s: S)
    : (r: Outcome<S, T>)
    requires Closed(h) && w in h && history <= h.Keys && w !in history
    decreases h.Keys - history
  {
    var seen := history + {w};
    var n := h[w];
    match visit(s, w, n)
    case Stop(t) => Found(t)
    case Throw(e) => Failed(e)
    case Continue(s1) =>
      match VisitAdaptee(h, w, visit, s1)
      case Stop(t) => Found(t)
      case Throw(e) => Failed(e)
      case Continue(s2) =>
        if !n.IsWrapper() then Exhausted(s2)
        else match UnwrapNonNull(h, w)
          case Err(e) => Failed(e)
          case Ok(next) =>
            if next in seen then Failed(CyclicChain(h[next].cls))
            else Walk(h, next, seen, visit, s2)
  }

  /** `travelWrapperChain`. */
  function Travel<K, V, S, T>(h: Heap<K, V>, wrapper: Ref, visit: Visitor<K, V, S, T>, s: S): (r: Outcome<S, T>)
    requires Closed(h) && RefIn(wrapper, h.Keys)
    ensures wrapper.Null? ==> r == Failed(NullPointer(Argument("wrapper")))
  {
    if wrapper.Null? then Failed(NullPointer(Argument("wrapper")))
    else Walk(h, wrapper.id, {}, visit, s)
  }

  /** A visitor that never stops the traversal (an action wrapped for `forEachOnWrapperChain`) never makes it find anything. */
  lemma {:induction false} NonStoppingWalk<K, V, S, T>(
    h: Heap<K, V>, w: NodeId, history: set<NodeId>, visit: Visitor<K, V, S, T>, s: S)
    requires Closed(h) && w in h && history <= h.Keys && w !in history
    requires forall s', id, n :: !visit(s', id, n).Stop?
    ensures !Walk(h, w, history, visit, s).Found?
    decreases h.Keys - history
  {
    var n := h[w];
    match visit(s, w, n)
    case Throw(_) =>
    case Continue(s1) =>
      match VisitAdaptee(h, w, visit, s1)
      case Throw(_) =>
      case Continue(s2) =>
        if n.IsWrapper() && UnwrapNonNull(h, w).Ok? {
          var next := UnwrapNonNull(h, w).value;
          if next !in history + {w} {
            NonStoppingWalk(h, next, history + {w}, visit, s2);
          }
        }
  }

  lemma NonStoppingTravel<K, V, S, T>(h: Heap<K, V>, wrapper: Ref, visit: Visitor<K, V, S, T>, s: S)
    requires Closed(h) && RefIn(wrapper, h.Keys)
    requires forall s', id, n :: !visit(s', id, n).Stop?
    ensures !Travel(h, wrapper, visit, s).Found?
  {
    if wrapper.Obj? {
      NonStoppingWalk(h, wrapper.id, {}, visit, s);
    }
  }

  /** `Optional.orElse` on a traversal result. */
  function OrElse<S, T>(o: Outcome<S, T>, otherwise: T): Result<T> {
    match o
    case Found(v) => Ok(v)
    case Exhausted(_) => Ok(otherwise)
    case Failed(e) => Err(e)
  }

  /** The visitor of `testWrapperChain`: stop with `true` at the first instance `test` accepts. */
  function TestVisitor<K, V>(test: Test<K, V>): Visitor<K, V, (), bool> {
    (s: (), id: NodeId, n: Node<K, V>) =>
      match test(id, n)
      case Err(e) => Throw(e)
      case Ok(b) => if b then Stop(true) else Continue(())
  }

  /** `testWrapperChain`: does any instance on the chain satisfy `test`? */
  function TestWrapperChain<K, V>(h: Heap<K, V>, wrapper: Ref, test: Test<K, V>): (r: Result<bool>)
    requires Closed(h) && RefIn(wrapper, h.Keys)
    ensures wrapper.Null? ==> r == Err(NullPointer(Argument("wrapper")))
    ensures wrapper.Obj? && test(wrapper.id, h[wrapper.id]).Ok? && test(wrapper.id, h[wrapper.id]).value ==> r == Ok(true)
    ensures wrapper.Obj? && test(wrapper.id, h[wrapper.id]).Err? ==> r == test(wrapper.id, h[wrapper.id])
  {
    if wrapper.Null? then Err(NullPointer(Argument("wrapper")))
    else OrElse(Travel(h, wrapper, TestVisitor(test), ()), false)
  }

  /** The predicate `w -> isInstanceOf(w, instanceType)`. */
  function InstanceTest<K, V>(env: TypeEnv, target: ClassId): Test<K, V> {
    (id: NodeId, n: Node<K, V>) => Ok(InstanceOf(env, n.cls, target))
  }

  /** `containsInstanceTypeOnWrapperChain`: is any instance on the chain an instance of `instanceType`? */
  function ContainsInstanceType<K, V>(env: TypeEnv, h: Heap<K, V>, wrapper: Ref, instanceType: Option<ClassId>)
    : (r: Result<bool>)
    requires Closed(h) && RefIn(wrapper, h.Keys)
    ensures wrapper.Null? ==> r == Err(NullPointer(Argument("wrapper")))
    ensures wrapper.Obj? && instanceType.None? ==> r == Err(NullPointer(Argument("instanceType")))
    ensures wrapper.Obj? && instanceType.Some? && InstanceOf(env, h[wrapper.id].cls, instanceType.value) ==> r == Ok(true)
  {
    if wrapper.Null? then Err(NullPointer(Argument("wrapper")))
    else if instanceType.None? then Err(NullPointer(Argument("instanceType")))
    else
      TestWrapperChain(h, wrapper, InstanceTest(env, instanceType.value))
  }

  /** The visitor of `getAttachmentFromWrapperChain`: stop at the first `Attachable` holding `key`. */
  function AttachmentVisitor<K, V>(key: K): Visitor<K, V, (), V> {
    (s: (), id: NodeId, n: Node<K, V>) =>
      if n.Holds(key) then Stop(n.attachments.value[key]) else Continue(())
  }

  /** `getAttachmentFromWrapperChain`; `None` is Java's `null` result. */
  function GetAttachmentFromWrapperChain<K, V>(h: Heap<K, V>, wrapper: Ref, key: Option<K>): (r: Result<Option<V>>)
    requires Closed(h) && RefIn(wrapper, h.Keys)
    ensures wrapper.Null? ==> r == Err(NullPointer(Argument("wrapper")))
    ensures wrapper.Obj? && key.None? ==> r == Err(NullPointer(Argument("key")))
    ensures wrapper.Obj? && key.Some? && h[wrapper.id].Holds(key.value)
      ==> r == Ok(Some(h[wrapper.id].attachments.value[key.value]))
  {
    if wrapper.Null? then Err(NullPointer(Argument("wrapper")))
    else if key.None? then Err(NullPointer(Argument("key")))
    else
      match Travel(h, wrapper, AttachmentVisitor(key.value), ())
      case Found(v) => Ok(Some(v))
      case Exhausted(_) => Ok(None)
      case Failed(e) => Err(e)
  }

  /** The visitor of `forEachOnWrapperChain`: run the action, never stop. */
  function ActionVisitor<K, V, S>(action: Action<K, V, S>): Visitor<K, V, S, ()> {
    (s: S, id: NodeId, n: Node<K, V>) =>
      match action(s, id, n)
      case Err(e) => Throw(e)
      case Ok(s') => Continue(s')
  }

  /** `forEachOnWrapperChain`, with the action's state made explicit. */
  function ForEachOnWrapperChain<K, V, S>(h: Heap<K, V>, wrapper: Ref, action: Action<K, V, S>, s: S): (r: Result<S>)
    requires Closed(h) && RefIn(wrapper, h.Keys)
    ensures wrapper.Null? ==> r == Err(NullPointer(Argument("wrapper")))
    ensures wrapper.Obj? && action(s, wrapper.id, h[wrapper.id]).Err? ==> r == action(s, wrapper.id, h[wrapper.id])
  {
    if wrapper.Null? then Err(NullPointer(Argument("wrapper")))
    else
      match Travel(h, wrapper, ActionVisitor(action), s)
      case Exhausted(s') => Ok(s')
      case Failed(e) => Err(e)
      case Found(_) => NonStoppingTravel(h, wrapper, ActionVisitor(action), s); assert false; Ok(s)
  }

  /** The action `ret::add`. */
  function Collect<K, V>(): Action<K, V, seq<NodeId>> {
    (acc: seq<NodeId>, id: NodeId, n: Node<K, V>) => Ok(acc + [id])
  }

  /** The action `w -> holder[0] = w`. */
  function Hold<K, V>(): Action<K, V, Ref> {
    (holder: Ref, id: NodeId, n: Node<K, V>) => Ok(Obj(id))
  }

  /** `getInstancesOfWrapperChain`: every instance the traversal visits, in order. */
  function GetInstancesOfWrapperChain<K, V>(h: Heap<K, V>, wrapper: Ref): (r: Result<seq<NodeId>>)
    requires Closed(h) && RefIn(wrapper, h.Keys)
    ensures wrapper.Null? ==> r == Err(NullPointer(Argument("wrapper")))
  {
    ForEachOnWrapperChain(h, wrapper, Collect(), [])
  }

  /** `getBaseOfWrapperChain`: the last instance the traversal visits (`holder[0]`, initially null). */
  function GetBaseOfWrapperChain<K, V>(h: Heap<K, V>, wrapper: Ref): (r: Result<Ref>)
    requires Closed(h) && RefIn(wrapper, h.Keys)
    ensures wrapper.Null? ==> r == Err(NullPointer(Argument("wrapper")))
  {
    ForEachOnWrapperChain(h, wrapper, Hold(), Null)
  }

  /** The visitor `w -> Optional.empty()`. */
  function Skip<K, V>(): Visitor<K, V, (), ()> {
    (s: (), id: NodeId, n: Node<K, V>) => Continue(())
  }

  /** `verifyWrapperChainContracts(wrapper)`: a traversal whose visitor does nothing. */
  function VerifyWrapperChainContracts<K, V>(h: Heap<K, V>, wrapper: Ref): (r: Result<()>)
    requires Closed(h) && RefIn(wrapper, h.Keys)
    ensures wrapper.Null? ==> r == Err(NullPointer(Argument("wrapper")))
  {
    match Travel(h, wrapper, Skip(), ())
    case Exhausted(_) => Ok(())
    case Failed(e) => Err(e)
    case Found(_) => NonStoppingTravel(h, wrapper, Skip(), ()); assert false; Ok(())
  }

  /**
   * The action of `verifyWrapperChainContracts(wrapper, bizInterface)`: a
   * null `bizInterface` fails when first dereferenced, inside the action.
   */
  function BizAction<K, V>(env: TypeEnv, biz: Option<ClassId>): Action<K, V, ()> {
    (s: (), id: NodeId, n: Node<K, V>) =>
      if biz.None? then Err(NullPointer(Receiver))
      else if !InstanceOf(env, n.cls, biz.value) then Err(NotBizInstance(n.cls, biz.value))
      else Ok(())
  }

  /** `verifyWrapperChainContracts(wrapper, bizInterface)`. */
  function VerifyWrapperChainContractsBiz<K, V>(env: TypeEnv, h: Heap<K, V>, wrapper: Ref, biz: Option<ClassId>)
    : (r: Result<()>)
    requires Closed(h) && RefIn(wrapper, h.Keys)
    ensures wrapper.Null? ==> r == Err(NullPointer(Argument("wrapper")))
    ensures wrapper.Obj? && biz.None? ==> r == Err(NullPointer(Receiver))
    ensures wrapper.Obj? && biz.Some? && !InstanceOf(env, h[wrapper.id].cls, biz.value)
      ==> r == Err(NotBizInstance(h[wrapper.id].cls, biz.value))
  {
    ForEachOnWrapperChain(h, wrapper, BizAction(env, biz), ())
  }

  /** `isWrapper`: false for null; a `WrapperAdapter` is a `Wrapper`. */
  function IsWrapper<K, V>(h: Heap<K, V>, obj: Ref): (b: bool)
    requires RefIn(obj, h.Keys)
    ensures obj.Null? ==> !b
    ensures b <==> obj.Obj? && (h[obj.id].shape.Wrapper? || h[obj.id].shape.Adapter?)
  {
    obj.Obj? && h[obj.id].IsWrapper()
  }

  /** `unwrap`: null-safe one-step unwrap; anything that is not a `Wrapper` is returned unchanged. */
  function Unwrap<K, V>(h: Heap<K, V>, obj: Ref): (r: Result<Ref>)
    requires Closed(h) && RefIn(obj, h.Keys)
    ensures r.Ok? ==> RefIn(r.value, h.Keys)
    ensures !IsWrapper(h, obj) ==> r == Ok(obj)
    ensures IsWrapper(h, obj) ==> (r.Ok? <==> h[obj.id].shape.unwrap.Obj?)
    ensures IsWrapper(h, obj) && r.Ok? ==> r.value == h[obj.id].shape.unwrap
    ensures r.Ok? ==> (r.value.Null? <==> obj.Null?)
    ensures r.Err? ==> KindOf(r.error) == NullPointerException
  {
    if !IsWrapper(h, obj) then Ok(obj)
    else match UnwrapNonNull(h, obj.id)
      case Err(e) => Err(e)
      case Ok(next) => Ok(Obj(next))
  }
}
