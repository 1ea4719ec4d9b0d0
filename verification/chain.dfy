/**
 * The wrapper chain: objects that may implement `Wrapper` (they yield the
 * next instance through `unwrap`), `WrapperAdapter` (a `Wrapper` that also
 * exposes an `adaptee`) and `Attachable` (a key/value store).
 *
 * The chain is the wrapper itself followed by the instances obtained by
 * repeatedly unwrapping. Its specification contracts: no `unwrap` yields
 * null, no instance occurs twice, the last instance is not a `Wrapper`, and
 * every adaptee is non-null and not a `Wrapper` itself.
 */
module Chain {
  import opened Options
  import opened Refs
  import opened Errors

  /** Which of the two chain capabilities an object has (`WrapperAdapter` extends `Wrapper`). */
  datatype Shape =
    | Plain
    | Wrapper(unwrap: Ref)
    | Adapter(unwrap: Ref, adaptee: Ref)

  /**
   * An object of the graph: its runtime class, its chain shape and, when it
   * is `Attachable`, the attachments it holds.
   */
  datatype Node<K, V> = Node(cls: ClassId, shape: Shape, attachments: Option<map<K, V>>) {

    predicate IsWrapper() {
      !shape.Plain?
    }

    predicate IsAdapter() {
      shape.Adapter?
    }

    /** This object is `Attachable` and holds an attachment for `key`. */
    predicate Holds(key: K) {
      attachments.Some? && key in attachments.value
    }
  }

  type Heap<K, V> = map<NodeId, Node<K, V>>

  predicate ShapeIn(s: Shape, ids: set<NodeId>) {
    match s
    case Plain => true
    case Wrapper(u) => RefIn(u, ids)
    case Adapter(u, a) => RefIn(u, ids) && RefIn(a, ids)
  }

  /** Every reference an object of the graph holds is null or points into the graph. */
  predicate Closed<K, V>(h: Heap<K, V>) {
    forall id | id in h :: ShapeIn(h[id].shape, h.Keys)
  }

  function Last(p: seq<NodeId>): NodeId
    requires |p| > 0
  {
    p[|p| - 1]
  }

  function Elems(p: seq<NodeId>): set<NodeId> {
    set x | x in p
  }

  /**
   * `p` lists the first |p| instances of the wrapper chain starting at `p[0]`:
   * each one before the last is a `Wrapper` whose `unwrap` is the next one,
   * and no instance occurs twice.
   */
  ghost predicate IsChainPrefix<K, V>(h: Heap<K, V>, p: seq<NodeId>) {
    && |p| > 0
    && (forall i | 0 <= i < |p| :: p[i] in h)
    && (forall i, j | 0 <= i < j < |p| :: p[i] != p[j])
    && (forall i | 0 <= i < |p| - 1 :: h[p[i]].IsWrapper() && h[p[i]].shape.unwrap == Obj(p[i + 1]))
  }

  /**
   * Unwrapping cannot go on past `p` without leaving the chain shape: the last
   * instance is not a `Wrapper`, or its `unwrap` is null, or it yields an
   * instance already on `p`.
   */
  ghost predicate Maximal<K, V>(h: Heap<K, V>, p: seq<NodeId>)
    requires IsChainPrefix(h, p)
  {
    var n := h[Last(p)];
    !n.IsWrapper() || n.shape.unwrap.Null? || n.shape.unwrap.id in p
  }

  /** The adaptee of an adapter is non-null and not a `Wrapper` (the `WrapperAdapter` contract). */
  ghost predicate AdapteeContract<K, V>(h: Heap<K, V>, w: NodeId)
    requires Closed(h) && w in h
  {
    h[w].IsAdapter() ==> h[w].shape.adaptee.Obj? && !h[h[w].shape.adaptee.id].IsWrapper()
  }

  /** `p` is a whole wrapper chain that meets every specification contract. */
  ghost predicate WellFormedChain<K, V>(h: Heap<K, V>, p: seq<NodeId>) {
    && Closed(h)
    && IsChainPrefix(h, p)
    && !h[Last(p)].IsWrapper()
    && (forall i | 0 <= i < |p| :: AdapteeContract(h, p[i]))
  }

  /**
   * What an inspection meets while walking the chain: an instance handed to
   * the caller's visitor, or a broken specification contract.
   */
  datatype Event = Visit(id: NodeId) | Violation(error: Error)

  /** Every instance an event list hands to a visitor is an object of the graph. */
  predicate VisitsIn<K, V>(h: Heap<K, V>, evs: seq<Event>) {
    forall i | 0 <= i < |evs| :: evs[i].Visit? ==> evs[i].id in h
  }

  /** The instance itself, then, for an adapter, its adaptee or the adaptee's contract violation. */
  function NodeEvents<K, V>(h: Heap<K, V>, w: NodeId): (evs: seq<Event>)
    requires Closed(h) && w in h
    ensures VisitsIn(h, evs) && |evs| > 0 && evs[0] == Visit(w)
  {
    [Visit(w)] + AdapteeEvents(h, w)
  }

  function AdapteeEvents<K, V>(h: Heap<K, V>, w: NodeId): (evs: seq<Event>)
    requires Closed(h) && w in h
    ensures VisitsIn(h, evs) && |evs| <= 1
    ensures |evs| == 1 <==> h[w].IsAdapter()
    ensures AdapteeContract(h, w) <==> |evs| == 0 || evs[0].Visit?
    ensures !AdapteeContract(h, w) ==>
      var a := h[w].shape.adaptee;
      evs == [Violation(if a.Null? then NullPointer(AdapteeOf(h[w].cls)) else AdapteeIsWrapper(h[a.id].cls, h[w].cls))]
  {
    var n := h[w];
    match n.shape
    case Adapter(_, Null) => [Violation(NullPointer(AdapteeOf(n.cls)))]
    case Adapter(_, Obj(a)) =>
      if h[a].IsWrapper() then [Violation(AdapteeIsWrapper(h[a].cls, n.cls))] else [Visit(a)]
    case _ => []
  }

  /** The events of every instance on `p`, outer to inner. */
  function BodyEvents<K, V>(h: Heap<K, V>, p: seq<NodeId>): (evs: seq<Event>)
    requires Closed(h) && forall i | 0 <= i < |p| :: p[i] in h
    ensures VisitsIn(h, evs)
  {
    if p == [] then [] else NodeEvents(h, p[0]) + BodyEvents(h, p[1..])
  }

  /** How the chain ends after `p`: at its base, at a null `unwrap`, or at a repeated instance. */
  function EndEvents<K, V>(h: Heap<K, V>, p: seq<NodeId>): (evs: seq<Event>)
    requires Closed(h) && |p| > 0 && forall i | 0 <= i < |p| :: p[i] in h
    ensures |evs| <= 1
    ensures |evs| == 1 ==> evs[0].Violation?
    ensures |evs| == 0 <==> !h[Last(p)].IsWrapper() || (h[Last(p)].shape.unwrap.Obj? && h[Last(p)].shape.unwrap.id !in p)
    ensures VisitsIn(h, evs)
  {
    var n := h[Last(p)];
    if !n.IsWrapper() then []
    else match n.shape.unwrap
      case Null => [Violation(NullPointer(UnwrapOf(n.cls)))]
      case Obj(x) => if x in p then [Violation(CyclicChain(h[x].cls))] else []
  }

  /** Everything met along the maximal chain prefix `p`, in order. */
  function Events<K, V>(h: Heap<K, V>, p: seq<NodeId>): (evs: seq<Event>)
    requires Closed(h) && |p| > 0 && forall i | 0 <= i < |p| :: p[i] in h
    ensures VisitsIn(h, evs)
  {
    BodyEvents(h, p) + EndEvents(h, p)
  }

  /**
   * The instances of a well-formed chain as an inspection sees them: each
   * chain instance, immediately followed by its adaptee when it is an adapter.
   */
  function Instances<K, V>(h: Heap<K, V>, p: seq<NodeId>): (xs: seq<NodeId>)
    requires Closed(h) && forall i | 0 <= i < |p| :: p[i] in h
    ensures forall i | 0 <= i < |xs| :: xs[i] in h
  {
    if p == [] then []
    else
      var n := h[p[0]];
      var here := if n.IsAdapter() && n.shape.adaptee.Obj? then [p[0], n.shape.adaptee.id] else [p[0]];
      here + Instances(h, p[1..])
  }

  function AsVisits(xs: seq<NodeId>): (evs: seq<Event>)
    ensures |evs| == |xs|
    ensures forall i | 0 <= i < |xs| :: evs[i] == Visit(xs[i])
  {
    if xs == [] then [] else [Visit(xs[0])] + AsVisits(xs[1..])
  }

  predicate NoViolation(evs: seq<Event>) {
    forall i | 0 <= i < |evs| :: evs[i].Visit?
  }

  /** The first broken contract an event list meets, if any. */
  function FirstViolation(evs: seq<Event>): Option<Error> {
    if evs == [] then None
    else if evs[0].Violation? then Some(evs[0].error)
    else FirstViolation(evs[1..])
  }

  /** Extends a chain prefix by unwrapping until it is maximal. */
  ghost function ExtendChain<K, V>(h: Heap<K, V>, p: seq<NodeId>): (q: seq<NodeId>)
    requires Closed(h) && IsChainPrefix(h, p)
    ensures IsChainPrefix(h, q) && Maximal(h, q)
    ensures |q| >= |p| && q[..|p|] == p
    decreases h.Keys - Elems(p)
  {
    var n := h[Last(p)];
    if !n.IsWrapper() || n.shape.unwrap.Null? || n.shape.unwrap.id in p then p
    else
      var next := n.shape.unwrap.id;
      var p' := p + [next];
      assert Elems(p') == Elems(p) + {next};
      var q := ExtendChain(h, p');
      assert q[..|p|] == q[..|p'|][..|p|];
      q
  }

  /** The wrapper chain of `root`, up to the point where unwrapping must stop. */
  ghost function ChainOf<K, V>(h: Heap<K, V>, root: NodeId): (p: seq<NodeId>)
    requires Closed(h) && root in h
    ensures IsChainPrefix(h, p) && Maximal(h, p) && p[0] == root
  {
    ExtendChain(h, [root])
  }
}
