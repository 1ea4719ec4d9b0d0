/**
 * The legacy `wract` API: a `Wrapper` interface (`wractUnwrap`) with a
 * static `check`, and an `InspectableWrapper` sub-interface whose
 * `wractAttachments()` map (null by default) is searched by a static
 * `getAttachment`. Neither walk checks for null or cycles.
 */
module Wract {
  import opened Options
  import opened Refs
  import opened Errors
  import opened LegacyLoop

  /** What an object is to `wract`; an `Inspectable` is also a `Wrapper`. */
  datatype Kind<V> =
    | NotWrapper
    | Plain(unwrap: Ref)
    | Inspectable(unwrap: Ref, attachments: Option<map<string, V>>)

  datatype Instance<V> = Instance(cls: ClassId, kind: Kind<V>)

  type Graph<V> = map<NodeId, Instance<V>>

  /** The `wractUnwrap` of any `wract.Wrapper`, which the `check` loop follows. */
  function WractUnwrap<V>(): UnwrapOf<Instance<V>> {
    (n: Instance<V>) => if n.kind.NotWrapper? then None else Some(n.kind.unwrap)
  }

  /** The `wractUnwrap` of an `InspectableWrapper`, the only one the `getAttachment` loop follows. */
  function InspectableUnwrap<V>(): UnwrapOf<Instance<V>> {
    (n: Instance<V>) => if n.kind.Inspectable? then Some(n.kind.unwrap) else None
  }

  /** A graph closed for `check` is closed for `getAttachment`. */
  lemma InspectableClosed<V>(h: Graph<V>)
    requires LegacyClosed(h, WractUnwrap())
    ensures LegacyClosed(h, InspectableUnwrap())
  {
  }

  /** `Wrapper.check(wrapper, predicate)`. */
  function Check<V>(h: Graph<V>, wrapper: Ref, test: (NodeId, Instance<V>) -> Result<bool>): (r: Outcome<Result<bool>>)
    requires LegacyClosed(h, WractUnwrap()) && RefIn(wrapper, h.Keys)
    ensures wrapper.Null? || h[wrapper.id].kind.NotWrapper? ==> r == Returns(Ok(false))
    ensures wrapper.Obj? && !h[wrapper.id].kind.NotWrapper? && test(wrapper.id, h[wrapper.id]) != Ok(false)
      ==> r == Returns(test(wrapper.id, h[wrapper.id]))
  {
    LegacyLoop.Check(h, WractUnwrap(), wrapper, test)
  }

  /**
   * `check` on a whole chain of `Wrapper`s, plain or inspectable, with a
   * predicate that never throws: true exactly when one of them satisfies it.
   */
  lemma CheckOnRun<V>(h: Graph<V>, p: seq<NodeId>, end: Ref, test: (NodeId, Instance<V>) -> Result<bool>)
    requires LegacyClosed(h, WractUnwrap()) && IsRun(h, WractUnwrap(), p, end)
    requires forall j | 0 <= j < |p| :: test(p[j], h[p[j]]).Ok?
    ensures Check(h, Obj(p[0]), test) == Returns(Ok(exists j | 0 <= j < |p| :: test(p[j], h[p[j]]) == Ok(true)))
  {
    CheckOnRunAnswersAny(h, WractUnwrap(), p, end, test);
  }

  /** `check` around a cycle of `Wrapper`s none of which satisfies the predicate never returns. */
  lemma CheckOnCycle<V>(h: Graph<V>, p: seq<NodeId>, k: nat, test: (NodeId, Instance<V>) -> Result<bool>)
    requires LegacyClosed(h, WractUnwrap()) && IsCycle(h, WractUnwrap(), p, k)
    requires forall j | 0 <= j < |p| :: test(p[j], h[p[j]]) == Ok(false)
    ensures Check(h, Obj(p[0]), test) == Diverges
  {
    LegacyLoop.CheckOnCycle(h, WractUnwrap(), p, k, test);
  }

  /** The `wractAttachments()` every `InspectableWrapper` inherits unless it overrides it: null. */
  const DefaultAttachments: Option<map<string, int>> := None

  /** Holds the attachment `key`: an `InspectableWrapper` whose map is non-null and has it. */
  predicate Holds<V>(n: Instance<V>, key: string) {
    n.kind.Inspectable? && n.kind.attachments.Some? && key in n.kind.attachments.value
  }

  /**
   * One pass of the `getAttachment` loop as written: on a null map it
   * `continue`s without unwrapping, so the next pass looks at the same
   * wrapper again.
   */
  function AttachmentBody<V>(h: Graph<V>, key: string): Ref -> Action<Option<V>> {
    (r: Ref) =>
      if !IsLegacyWrapper(h, InspectableUnwrap(), r) then Return(None)
      else if h[r.id].kind.attachments.None? then Stay
      else if key in h[r.id].kind.attachments.value then Return(Some(h[r.id].kind.attachments.value[key]))
      else MoveTo(Next(h, InspectableUnwrap(), r))
  }

  /** One pass of the loop as evidently intended: a null map means nothing here, so move on. */
  function FixedAttachmentBody<V>(h: Graph<V>, key: string): Ref -> Action<Option<V>> {
    (r: Ref) =>
      if !IsLegacyWrapper(h, InspectableUnwrap(), r) then Return(None)
      else if Holds(h[r.id], key) then Return(Some(h[r.id].kind.attachments.value[key]))
      else MoveTo(Next(h, InspectableUnwrap(), r))
  }

  lemma BodiesMove<V>(h: Graph<V>, key: string)
    requires LegacyClosed(h, WractUnwrap())
    ensures Moves(Universe(h), AttachmentBody(h, key))
    ensures Moves(Universe(h), FixedAttachmentBody(h, key))
  {
    forall r | r in Universe(h) && AttachmentBody(h, key)(r).MoveTo?
      ensures AttachmentBody(h, key)(r).next in Universe(h)
    {
      InUniverse(h, Next(h, InspectableUnwrap(), r));
    }
    forall r | r in Universe(h) && FixedAttachmentBody(h, key)(r).MoveTo?
      ensures FixedAttachmentBody(h, key)(r).next in Universe(h)
    {
      InUniverse(h, Next(h, InspectableUnwrap(), r));
    }
  }

  /** `InspectableWrapper.getAttachment(wrapper, key)` as written. */
  function GetAttachment<V>(h: Graph<V>, wrapper: Ref, key: string): (r: Outcome<Option<V>>)
    requires LegacyClosed(h, WractUnwrap()) && RefIn(wrapper, h.Keys)
    ensures wrapper.Null? || !h[wrapper.id].kind.Inspectable? ==> r == Returns(None)
    ensures wrapper.Obj? && Holds(h[wrapper.id], key) ==> r == Returns(Some(h[wrapper.id].kind.attachments.value[key]))
    ensures wrapper.Obj? && h[wrapper.id].kind.Inspectable? && h[wrapper.id].kind.attachments.None? ==> r == Diverges
  {
    BodiesMove(h, key);
    InUniverse(h, wrapper);
    Run(Universe(h), AttachmentBody(h, key), wrapper, {})
  }

  /** `getAttachment` as evidently intended: wrappers with a null map are skipped. */
  function GetAttachmentFixed<V>(h: Graph<V>, wrapper: Ref, key: string): (r: Outcome<Option<V>>)
    requires LegacyClosed(h, WractUnwrap()) && RefIn(wrapper, h.Keys)
    ensures wrapper.Null? || !h[wrapper.id].kind.Inspectable? ==> r == Returns(None)
    ensures wrapper.Obj? && Holds(h[wrapper.id], key) ==> r == Returns(Some(h[wrapper.id].kind.attachments.value[key]))
  {
    BodiesMove(h, key);
    InUniverse(h, wrapper);
    Run(Universe(h), FixedAttachmentBody(h, key), wrapper, {})
  }

  /**
   * The fixed `getAttachment` on a whole chain of `InspectableWrapper`s
   * returns the value of the outermost one holding `key` (`i`), or null
   * when none does; the chain ends at the first object that is not an
   * `InspectableWrapper`, which may be a plain `Wrapper`.
   */
  lemma GetAttachmentFixedOnRun<V>(h: Graph<V>, p: seq<NodeId>, end: Ref, key: string, i: nat)
    requires LegacyClosed(h, WractUnwrap()) && IsRun(h, InspectableUnwrap(), p, end)
    requires i <= |p| && (forall j | 0 <= j < i :: !Holds(h[p[j]], key)) && (i < |p| ==> Holds(h[p[i]], key))
    ensures GetAttachmentFixed(h, Obj(p[0]), key)
      == Returns(if i < |p| then Some(h[p[i]].kind.attachments.value[key]) else None)
  {
    BodiesMove(h, key);
    WalkOnRun(h, InspectableUnwrap(), FixedAttachmentBody(h, key), p, end, i,
              if i < |p| then Some(h[p[i]].kind.attachments.value[key]) else None);
  }

  /** The fixed `getAttachment` around a cycle where no wrapper holds `key` never returns. */
  lemma GetAttachmentFixedOnCycle<V>(h: Graph<V>, p: seq<NodeId>, k: nat, key: string)
    requires LegacyClosed(h, WractUnwrap()) && IsCycle(h, InspectableUnwrap(), p, k)
    requires forall j | 0 <= j < |p| :: !Holds(h[p[j]], key)
    ensures GetAttachmentFixed(h, Obj(p[0]), key) == Diverges
  {
    BodiesMove(h, key);
    WalkOnCycle(h, InspectableUnwrap(), FixedAttachmentBody(h, key), p, k);
  }

  /**
   * `getAttachment` as written on a whole chain: let `i` be the first
   * wrapper that holds `key` or has a null map. If it holds `key` that
   * value is returned; if its map is null the loop never ends; if there is
   * none the result is null.
   */
  lemma GetAttachmentOnRun<V>(h: Graph<V>, p: seq<NodeId>, end: Ref, key: string, i: nat)
    requires LegacyClosed(h, WractUnwrap()) && IsRun(h, InspectableUnwrap(), p, end)
    requires i <= |p| && (forall j | 0 <= j < i :: h[p[j]].kind.attachments.Some? && !Holds(h[p[j]], key))
    requires i < |p| ==> Holds(h[p[i]], key) || h[p[i]].kind.attachments.None?
    ensures GetAttachment(h, Obj(p[0]), key)
      == if i == |p| then Returns(None)
         else if h[p[i]].kind.attachments.None? then Diverges
         else Returns(Some(h[p[i]].kind.attachments.value[key]))
  {
    BodiesMove(h, key);
    if i < |p| && h[p[i]].kind.attachments.None? {
      WalkIntoStay(h, InspectableUnwrap(), AttachmentBody(h, key), p, i);
    } else {
      WalkOnRun(h, InspectableUnwrap(), AttachmentBody(h, key), p, end, i,
                if i < |p| then Some(h[p[i]].kind.attachments.value[key]) else None);
    }
  }

  /**
   * Where every wrapper the loop reaches has a non-null map, the code as
   * written and the fixed loop agree.
   */
  lemma FixedAgreesWithoutNullMaps<V>(h: Graph<V>, p: seq<NodeId>, end: Ref, key: string, i: nat)
    requires LegacyClosed(h, WractUnwrap()) && IsRun(h, InspectableUnwrap(), p, end)
    requires i <= |p| && (forall j | 0 <= j < i :: !Holds(h[p[j]], key)) && (i < |p| ==> Holds(h[p[i]], key))
    requires forall j | 0 <= j < i :: h[p[j]].kind.attachments.Some?
    ensures GetAttachment(h, Obj(p[0]), key) == GetAttachmentFixed(h, Obj(p[0]), key)
  {
    GetAttachmentOnRun(h, p, end, key, i);
    GetAttachmentFixedOnRun(h, p, end, key, i);
  }

  /* One `InspectableWrapper` that keeps the default `wractAttachments()` and wraps null. */

  const Quiet: ClassId := 50

  function DefaultGraph(): Graph<int> {
    map[0 := Instance(Quiet, Inspectable(Null, DefaultAttachments))]
  }

  /**
   * On that wrapper the loop as written runs forever: no number of passes
   * finishes it. The fixed loop returns null.
   */
  lemma DefaultAttachmentsHang(key: string)
    ensures LegacyClosed(DefaultGraph(), WractUnwrap())
    ensures GetAttachment(DefaultGraph(), Obj(0), key) == Diverges
    ensures forall k: nat :: Iterate(AttachmentBody(DefaultGraph(), key), Running(Obj(0)), k).Running?
    ensures GetAttachmentFixed(DefaultGraph(), Obj(0), key) == Returns(None)
  {
    var h := DefaultGraph();
    BodiesMove(h, key);
    InUniverse(h, Obj(0));
    RunIsFaithful(Universe(h), AttachmentBody(h, key), Obj(0));
    GetAttachmentFixedOnRun(h, [0], Null, key, 1);
  }
}
