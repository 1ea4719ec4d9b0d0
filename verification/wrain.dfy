/**
 * The legacy `wrain` API: a `Wrapper` interface (`wrainUnwrap`), a separate
 * `Attachable` interface, and two static walks over the chain. Neither walk
 * checks for null, cycles or adaptees: it stops at the first reference that
 * is not a `wrain.Wrapper`, which it never inspects.
 */
module Wrain {
  import opened Options
  import opened Refs
  import opened Errors
  import opened Types
  import opened LegacyLoop

  /**
   * An object as `wrain` sees it: `unwrap` is `Some` for a `wrain.Wrapper`
   * (holding what `wrainUnwrap` returns, possibly null), `attachments` is
   * `Some` for a `wrain.Attachable`.
   */
  datatype Instance<V> = Instance(cls: ClassId, unwrap: Option<Ref>, attachments: Option<map<string, V>>)

  type Graph<V> = map<NodeId, Instance<V>>

  function WrainUnwrap<V>(): UnwrapOf<Instance<V>> {
    (n: Instance<V>) => n.unwrap
  }

  /** `Wrapper.check(wrapper, predicate)`. */
  function Check<V>(h: Graph<V>, wrapper: Ref, test: (NodeId, Instance<V>) -> Result<bool>): (r: Outcome<Result<bool>>)
    requires LegacyClosed(h, WrainUnwrap()) && RefIn(wrapper, h.Keys)
    ensures wrapper.Null? || h[wrapper.id].unwrap.None? ==> r == Returns(Ok(false))
    ensures wrapper.Obj? && h[wrapper.id].unwrap.Some? && test(wrapper.id, h[wrapper.id]) != Ok(false)
      ==> r == Returns(test(wrapper.id, h[wrapper.id]))
  {
    LegacyLoop.Check(h, WrainUnwrap(), wrapper, test)
  }

  /** The predicate `w -> clazz.isAssignableFrom(w.getClass())`; a null `clazz` fails when the predicate first runs. */
  function ClassTest<V>(env: TypeEnv, clazz: Option<ClassId>): (NodeId, Instance<V>) -> Result<bool> {
    (id: NodeId, n: Instance<V>) =>
      if clazz.None? then Err(NullPointer(Receiver)) else Ok(InstanceOf(env, n.cls, clazz.value))
  }

  /** `Wrapper.isInstanceOf(wrapper, clazz)`. */
  function IsInstanceOf<V>(env: TypeEnv, h: Graph<V>, wrapper: Ref, clazz: Option<ClassId>): (r: Outcome<Result<bool>>)
    requires LegacyClosed(h, WrainUnwrap()) && RefIn(wrapper, h.Keys)
    ensures wrapper.Null? || h[wrapper.id].unwrap.None? ==> r == Returns(Ok(false))
    ensures wrapper.Obj? && h[wrapper.id].unwrap.Some? && clazz.None? ==> r == Returns(Err(NullPointer(Receiver)))
    ensures wrapper.Obj? && h[wrapper.id].unwrap.Some? && clazz.Some? && InstanceOf(env, h[wrapper.id].cls, clazz.value)
      ==> r == Returns(Ok(true))
  {
    Check(h, wrapper, ClassTest(env, clazz))
  }

  /**
   * `isInstanceOf` on a whole chain: true exactly when one of its
   * `Wrapper`s is of the class; the object at the end is not looked at.
   */
  lemma IsInstanceOfOnRun<V>(env: TypeEnv, h: Graph<V>, p: seq<NodeId>, end: Ref, c: ClassId)
    requires LegacyClosed(h, WrainUnwrap()) && IsRun(h, WrainUnwrap(), p, end)
    ensures IsInstanceOf(env, h, Obj(p[0]), Some(c)) == Returns(Ok(exists j | 0 <= j < |p| :: InstanceOf(env, h[p[j]].cls, c)))
  {
    var i := 0;
    while i < |p| && !InstanceOf(env, h[p[i]].cls, c)
      invariant i <= |p| && forall j | 0 <= j < i :: !InstanceOf(env, h[p[j]].cls, c)
    {
      i := i + 1;
    }
    CheckOnRun(h, WrainUnwrap(), p, end, ClassTest(env, Some(c)), i);
  }

  /**
   * `Wrapper.getAttachment(wrapper, key)`: skip `Wrapper`s that are not
   * `Attachable`, return the first value found, null at the end of the chain.
   */
  function AttachmentBody<V>(h: Graph<V>, key: string): Ref -> Action<Option<V>> {
    (r: Ref) =>
      if !IsLegacyWrapper(h, WrainUnwrap(), r) then Return(None)
      else if h[r.id].attachments.Some? && key in h[r.id].attachments.value then Return(Some(h[r.id].attachments.value[key]))
      else MoveTo(Next(h, WrainUnwrap(), r))
  }

  lemma AttachmentBodyMoves<V>(h: Graph<V>, key: string)
    requires LegacyClosed(h, WrainUnwrap())
    ensures Moves(Universe(h), AttachmentBody(h, key))
  {
    forall r | r in Universe(h) && AttachmentBody(h, key)(r).MoveTo?
      ensures AttachmentBody(h, key)(r).next in Universe(h)
    {
      InUniverse(h, Next(h, WrainUnwrap(), r));
    }
  }

  /** Holds the attachment `key` (an `Attachable` whose map has it). */
  predicate Holds<V>(n: Instance<V>, key: string) {
    n.attachments.Some? && key in n.attachments.value
  }

  function GetAttachment<V>(h: Graph<V>, wrapper: Ref, key: string): (r: Outcome<Option<V>>)
    requires LegacyClosed(h, WrainUnwrap()) && RefIn(wrapper, h.Keys)
    ensures wrapper.Null? || h[wrapper.id].unwrap.None? ==> r == Returns(None)
    ensures wrapper.Obj? && h[wrapper.id].unwrap.Some? && Holds(h[wrapper.id], key)
      ==> r == Returns(Some(h[wrapper.id].attachments.value[key]))
  {
    AttachmentBodyMoves(h, key);
    InUniverse(h, wrapper);
    Run(Universe(h), AttachmentBody(h, key), wrapper, {})
  }

  /**
   * `getAttachment` on a whole chain: the value held by the outermost
   * `Wrapper` holding `key` (`i`), or null when none does.
   */
  lemma GetAttachmentOnRun<V>(h: Graph<V>, p: seq<NodeId>, end: Ref, key: string, i: nat)
    requires LegacyClosed(h, WrainUnwrap()) && IsRun(h, WrainUnwrap(), p, end)
    requires i <= |p| && (forall j | 0 <= j < i :: !Holds(h[p[j]], key)) && (i < |p| ==> Holds(h[p[i]], key))
    ensures GetAttachment(h, Obj(p[0]), key) == Returns(if i < |p| then Some(h[p[i]].attachments.value[key]) else None)
  {
    AttachmentBodyMoves(h, key);
    WalkOnRun(h, WrainUnwrap(), AttachmentBody(h, key), p, end, i,
              if i < |p| then Some(h[p[i]].attachments.value[key]) else None);
  }

  /** `getAttachment` on a cycle where no `Wrapper` holds `key` never returns. */
  lemma GetAttachmentOnCycle<V>(h: Graph<V>, p: seq<NodeId>, k: nat, key: string)
    requires LegacyClosed(h, WrainUnwrap()) && IsCycle(h, WrainUnwrap(), p, k)
    requires forall j | 0 <= j < |p| :: !Holds(h[p[j]], key)
    ensures GetAttachment(h, Obj(p[0]), key) == Diverges
  {
    AttachmentBodyMoves(h, key);
    WalkOnCycle(h, WrainUnwrap(), AttachmentBody(h, key), p, k);
  }

  /* The chain of the package's own example: a chatty wrapper around a lazy wrapper holding "busy". */

  const Chatty: ClassId := 30
  const Lazy: ClassId := 35
  const ExecutorService: ClassId := 11

  function ExampleGraph(): Graph<string> {
    map[
      0 := Instance(Chatty, Some(Obj(1)), None),
      1 := Instance(Lazy, Some(Obj(2)), Some(map["busy" := "very very busy!"])),
      2 := Instance(40, None, None)]
  }

  lemma ExampleScenario(env: TypeEnv)
    requires env.assignable(Lazy, Lazy) && !env.assignable(ExecutorService, Chatty) && !env.assignable(ExecutorService, Lazy)
    ensures IsInstanceOf(env, ExampleGraph(), Obj(0), Some(Lazy)) == Returns(Ok(true))
    ensures IsInstanceOf(env, ExampleGraph(), Obj(0), Some(ExecutorService)) == Returns(Ok(false))
    ensures GetAttachment(ExampleGraph(), Obj(0), "busy") == Returns(Some("very very busy!"))
    ensures GetAttachment(ExampleGraph(), Obj(0), "not existed") == Returns(None)
  {
    var h := ExampleGraph();
    assert IsRun(h, WrainUnwrap(), [0, 1], Obj(2));
    IsInstanceOfOnRun(env, h, [0, 1], Obj(2), Lazy);
    assert InstanceOf(env, h[[0, 1][1]].cls, Lazy);
    IsInstanceOfOnRun(env, h, [0, 1], Obj(2), ExecutorService);
    GetAttachmentOnRun(h, [0, 1], Obj(2), "busy", 1);
    GetAttachmentOnRun(h, [0, 1], Obj(2), "not existed", 2);
  }
}
