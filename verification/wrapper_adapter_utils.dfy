/**
 * `WrapperAdapterUtils`: builds a `WrapperAdapter` (a dynamic proxy) from a
 * business interface, an underlying instance and an adaptee, after checking
 * every argument. The proxy answers `unwrap_`, `adaptee_`, the attachment
 * methods and `toString` itself and forwards every other call to the adaptee.
 */
module WrapperAdapterUtils {
  import opened Options
  import opened Refs
  import opened Errors
  import opened Types
  import opened Chain

  /* ---------------------------------------------------------------------- */
  /* Argument checks                                                        */
  /* ---------------------------------------------------------------------- */

  /** A tag interface is an interface that declares no method. */
  predicate IsTagInterface(env: TypeEnv, tag: ClassId) {
    env.isInterface(tag) && env.methodCount(tag) == 0
  }

  /** Everything the created proxy relies on: the reference statement of the checks. */
  predicate TypeRequirementsHold<K, V>(env: TypeEnv, h: Heap<K, V>, biz: ClassId, underlying: NodeId, adaptee: NodeId, tags: Option<seq<ClassId>>)
    requires underlying in h && adaptee in h
  {
    && env.isInterface(biz)
    && !AutoImplemented(biz)
    && InstanceOf(env, h[underlying].cls, biz)
    && InstanceOf(env, h[adaptee].cls, biz)
    && !h[adaptee].IsWrapper()
    && (tags.Some? ==> forall i | 0 <= i < |tags.value| :: IsTagInterface(env, tags.value[i]))
  }

  /** The tag checks from position `from` on; positions in messages are 1-based. */
  function CheckTags(env: TypeEnv, tags: seq<ClassId>, from: nat): (r: Result<()>)
    requires from <= |tags|
    ensures r.Ok? <==> forall i | from <= i < |tags| :: IsTagInterface(env, tags[i])
    ensures r.Err? ==> r.error.IllegalArgument? && (r.error.problem.TagNotInterface? || r.error.problem.TagHasMethods?)
    ensures r.Err? ==>
      var k := r.error.problem.position - 1;
      && from <= k < |tags|
      && r.error.problem.tag == tags[k]
      && (forall i | from <= i < k :: IsTagInterface(env, tags[i]))
      && (r.error.problem.TagNotInterface? <==> !env.isInterface(tags[k]))
    decreases |tags| - from
  {
    if from == |tags| then Ok(())
    else if !env.isInterface(tags[from]) then Err(IllegalArgument(TagNotInterface(from + 1, tags[from])))
    else if env.methodCount(tags[from]) > 0 then Err(IllegalArgument(TagHasMethods(from + 1, tags[from])))
    else CheckTags(env, tags, from + 1)
  }

  /** `checkTypeRequirements`: the checks in the order the code makes them; the first failure is reported. */
  function CheckTypeRequirements<K, V>(env: TypeEnv, h: Heap<K, V>, biz: ClassId, underlying: NodeId, adaptee: NodeId, tags: Option<seq<ClassId>>)
    : (r: Result<()>)
    requires underlying in h && adaptee in h
    ensures r.Ok? <==> TypeRequirementsHold(env, h, biz, underlying, adaptee, tags)
    ensures r.Err? ==> KindOf(r.error) == IllegalArgumentException
    ensures !env.isInterface(biz) ==> r == Err(IllegalArgument(BizNotInterface(biz)))
    ensures env.isInterface(biz) && AutoImplemented(biz) ==> r == Err(IllegalArgument(BizAutoImplemented(biz)))
    ensures env.isInterface(biz) && !AutoImplemented(biz) && !InstanceOf(env, h[underlying].cls, biz)
      ==> r == Err(IllegalArgument(UnderlyingNotBiz(h[underlying].cls, biz)))
    ensures env.isInterface(biz) && !AutoImplemented(biz) && InstanceOf(env, h[underlying].cls, biz)
      && !InstanceOf(env, h[adaptee].cls, biz)
      ==> r == Err(IllegalArgument(AdapteeNotBiz(h[adaptee].cls, biz)))
    ensures env.isInterface(biz) && !AutoImplemented(biz) && InstanceOf(env, h[underlying].cls, biz)
      && InstanceOf(env, h[adaptee].cls, biz) && h[adaptee].IsWrapper()
      ==> r == Err(IllegalArgument(AdapteeIsWrapperType(h[adaptee].cls)))
    ensures env.isInterface(biz) && !AutoImplemented(biz) && InstanceOf(env, h[underlying].cls, biz)
      && InstanceOf(env, h[adaptee].cls, biz) && !h[adaptee].IsWrapper() && tags.Some?
      ==> r == CheckTags(env, tags.value, 0)
  {
    if !env.isInterface(biz) then Err(IllegalArgument(BizNotInterface(biz)))
    else if AutoImplemented(biz) then Err(IllegalArgument(BizAutoImplemented(biz)))
    else if !InstanceOf(env, h[underlying].cls, biz) then Err(IllegalArgument(UnderlyingNotBiz(h[underlying].cls, biz)))
    else if !InstanceOf(env, h[adaptee].cls, biz) then Err(IllegalArgument(AdapteeNotBiz(h[adaptee].cls, biz)))
    else if h[adaptee].IsWrapper() then Err(IllegalArgument(AdapteeIsWrapperType(h[adaptee].cls)))
    else if tags.None? then Ok(())
    else CheckTags(env, tags.value, 0)
  }

  /** `e` reports the outermost null element of `tags`, by its 1-based position. */
  predicate ReportsFirstNullTag(tags: seq<Option<ClassId>>, e: Error) {
    && e.NullPointer? && e.site.TagElement?
    && 1 <= e.site.position <= |tags|
    && tags[e.site.position - 1].None?
    && forall i | 0 <= i < e.site.position - 1 :: tags[i].Some?
  }

  /**
   * `requireTagsNonNull`: the tag array and each element must be non-null;
   * the outermost null element is reported by its 1-based position.
   */
  method RequireTagsNonNull(tags: Option<seq<Option<ClassId>>>) returns (r: Result<seq<ClassId>>)
    ensures tags.None? ==> r == Err(NullPointer(Argument("tagInterfaces")))
    ensures r.Ok? <==> tags.Some? && forall i | 0 <= i < |tags.value| :: tags.value[i].Some?
    ensures r.Ok? ==> |r.value| == |tags.value| && forall i | 0 <= i < |tags.value| :: tags.value[i] == Some(r.value[i])
    ensures r.Err? && tags.Some? ==> ReportsFirstNullTag(tags.value, r.error)
  {
    if tags.None? {
      return Err(NullPointer(Argument("tagInterfaces")));
    }
    var ts := tags.value;
    var checked: seq<ClassId> := [];
    for i := 0 to |ts|
      invariant |checked| == i
      invariant forall j | 0 <= j < i :: ts[j] == Some(checked[j])
    {
      if ts[i].None? {
        return Err(NullPointer(TagElement(i + 1)));
      }
      checked := checked + [ts[i].value];
    }
    return Ok(checked);
  }

  /** `merge(a1, a2)`: `a1` followed by `a2`, copied into a fresh array; a null `a2` leaves `a1`. */
  method Merge(a1: seq<ClassId>, a2: Option<seq<ClassId>>) returns (r: seq<ClassId>)
    ensures a2.None? ==> r == a1
    ensures a2.Some? ==> |r| == |a1| + |a2.value|
    ensures a2.Some? ==> r[..|a1|] == a1 && r[|a1|..] == a2.value
  {
    if a2.None? {
      return a1;
    }
    var b := a2.value;
    var ret := new ClassId[|a1| + |b|];
    for i := 0 to |a1|
      invariant forall j | 0 <= j < i :: ret[j] == a1[j]
    {
      ret[i] := a1[i];
    }
    for i := 0 to |b|
      invariant forall j | 0 <= j < |a1| :: ret[j] == a1[j]
      invariant forall j | 0 <= j < i :: ret[|a1| + j] == b[j]
    {
      ret[|a1| + i] := b[i];
    }
    r := ret[..];
    assert r[|a1|..] == b by {
      forall j | 0 <= j < |b| ensures r[|a1|..][j] == b[j] { assert r[|a1| + j] == ret[|a1| + j]; }
    }
  }

  /* ---------------------------------------------------------------------- */
  /* The proxy                                                              */
  /* ---------------------------------------------------------------------- */

  /** A created `WrapperAdapter` proxy: the interfaces it implements and what its handler closes over. */
  datatype Proxy = Proxy(interfaces: seq<ClassId>, underlying: NodeId, adaptee: NodeId, attachable: Option<NodeId>)

  /** The interfaces the proxy class is asked to implement: the business interface, the library's, then the tags. */
  function ProxyInterfaces(biz: ClassId, withAttachable: bool, tags: Option<seq<ClassId>>): seq<ClassId> {
    var own := if withAttachable then [biz, WrapperAdapterType, AttachableType] else [biz, WrapperAdapterType];
    own + (if tags.Some? then tags.value else [])
  }

  predicate ImplementsAsCreated(p: Proxy, biz: ClassId, tags: Option<seq<ClassId>>) {
    p.interfaces == ProxyInterfaces(biz, p.attachable.Some?, tags)
  }

  /** No interface is listed twice. */
  predicate Distinct(s: seq<ClassId>) {
    forall i, j | 0 <= i < j < |s| :: s[i] != s[j]
  }

  /**
   * The repeat check of `Proxy.newProxyInstance`, from position `from` on:
   * the first position whose interface already occurs earlier in the list.
   */
  function FirstRepeat(s: seq<ClassId>, from: nat): (r: Option<nat>)
    requires from <= |s|
    ensures r.None? <==> forall j | from <= j < |s| :: s[j] !in s[..j]
    ensures r.Some? ==> from <= r.value < |s| && s[r.value] in s[..r.value]
    ensures r.Some? ==> forall j | from <= j < r.value :: s[j] !in s[..j]
    decreases |s| - from
  {
    if from == |s| then None
    else if s[from] in s[..from] then Some(from)
    else FirstRepeat(s, from + 1)
  }

  /** A list is distinct exactly when no position repeats an earlier one. */
  lemma DistinctIffNoRepeat(s: seq<ClassId>)
    ensures Distinct(s) <==> forall j | 0 <= j < |s| :: s[j] !in s[..j]
  {
    if Distinct(s) {
      forall j | 0 <= j < |s| ensures s[j] !in s[..j] {
        forall i | 0 <= i < j ensures s[..j][i] != s[j] { assert s[..j][i] == s[i]; }
      }
    }
    if forall j | 0 <= j < |s| :: s[j] !in s[..j] {
      forall i, j | 0 <= i < j < |s| ensures s[i] != s[j] { assert s[..j][i] == s[i]; }
    }
  }

  /** Without tags, the interfaces of a proxy that passes the type checks are distinct. */
  lemma OwnInterfacesDistinct(biz: ClassId, withAttachable: bool)
    requires !AutoImplemented(biz)
    ensures Distinct(ProxyInterfaces(biz, withAttachable, None))
  {
  }

  /**
   * A tag given twice, or the business interface given again as a tag, makes
   * the JDK refuse the proxy, naming that interface.
   */
  lemma RepeatedTagRejected(biz: ClassId, withAttachable: bool, t: ClassId)
    requires !AutoImplemented(biz)
    ensures var s := ProxyInterfaces(biz, withAttachable, Some([t, t]));
      !Distinct(s) && FirstRepeat(s, 0).Some? && s[FirstRepeat(s, 0).value] == t
    ensures var s := ProxyInterfaces(biz, withAttachable, Some([biz]));
      !Distinct(s) && FirstRepeat(s, 0).Some? && s[FirstRepeat(s, 0).value] == biz
  {
    OwnInterfacesDistinct(biz, withAttachable);
    var own := ProxyInterfaces(biz, withAttachable, None);
    var s := ProxyInterfaces(biz, withAttachable, Some([t, t]));
    assert s == own + [t, t] && s[|s| - 2] == s[|s| - 1];
    var j := FirstRepeat(s, 0).value;
    assert j >= |own|;
    var s' := ProxyInterfaces(biz, withAttachable, Some([biz]));
    assert s' == own + [biz] && s'[0] == s'[|s'| - 1];
    var j' := FirstRepeat(s', 0).value;
    assert j' >= |own|;
  }

  /** `createWrapperAdapter0`: the arguments are non-null here; check the types, then build the proxy. */
  method CreateWrapperAdapter0<K, V>(env: TypeEnv, h: Heap<K, V>, biz: ClassId, underlying: NodeId, adaptee: NodeId,
                                     attachable: Option<NodeId>, tags: Option<seq<ClassId>>)
    returns (r: Result<Proxy>)
    requires underlying in h && adaptee in h
    ensures r.Ok? <==> TypeRequirementsHold(env, h, biz, underlying, adaptee, tags) && Distinct(ProxyInterfaces(biz, attachable.Some?, tags))
    ensures !TypeRequirementsHold(env, h, biz, underlying, adaptee, tags)
      ==> r == Err(CheckTypeRequirements(env, h, biz, underlying, adaptee, tags).error)
    ensures TypeRequirementsHold(env, h, biz, underlying, adaptee, tags) && !Distinct(ProxyInterfaces(biz, attachable.Some?, tags)) ==>
      var s := ProxyInterfaces(biz, attachable.Some?, tags);
      FirstRepeat(s, 0).Some? && r == Err(IllegalArgument(RepeatedInterface(s[FirstRepeat(s, 0).value])))
    ensures r.Ok? ==> r.value.underlying == underlying && r.value.adaptee == adaptee && r.value.attachable == attachable
    ensures r.Ok? ==> ImplementsAsCreated(r.value, biz, tags) && Distinct(r.value.interfaces)
  {
    var checked := CheckTypeRequirements(env, h, biz, underlying, adaptee, tags);
    if checked.Err? {
      return Err(checked.error);
    }
    var own := if attachable.Some? then [biz, WrapperAdapterType, AttachableType] else [biz, WrapperAdapterType];
    var interfaces := Merge(own, tags);
    assert interfaces == ProxyInterfaces(biz, attachable.Some?, tags) by {
      if tags.Some? { assert interfaces == interfaces[..|own|] + interfaces[|own|..]; }
    }
    DistinctIffNoRepeat(interfaces);
    var repeat := FirstRepeat(interfaces, 0);
    if repeat.Some? {
      return Err(IllegalArgument(RepeatedInterface(interfaces[repeat.value])));
    }
    return Ok(Proxy(interfaces, underlying, adaptee, attachable));
  }

  /** `createWrapperAdapter(bizInterface, underlying, adaptee)`. */
  method CreateWrapperAdapter<K, V>(env: TypeEnv, h: Heap<K, V>, biz: Option<ClassId>, underlying: Ref, adaptee: Ref)
    returns (r: Result<Proxy>)
    requires RefIn(underlying, h.Keys) && RefIn(adaptee, h.Keys)
    ensures biz.None? ==> r == Err(NullPointer(Argument("bizInterface")))
    ensures biz.Some? && underlying.Null? ==> r == Err(NullPointer(Argument("underlying")))
    ensures biz.Some? && underlying.Obj? && adaptee.Null? ==> r == Err(NullPointer(Argument("adaptee")))
    ensures biz.Some? && underlying.Obj? && adaptee.Obj? ==>
      (r.Ok? <==> TypeRequirementsHold(env, h, biz.value, underlying.id, adaptee.id, None))
    ensures biz.Some? && underlying.Obj? && adaptee.Obj? && r.Err? ==>
      r == Err(CheckTypeRequirements(env, h, biz.value, underlying.id, adaptee.id, None).error)
    ensures r.Ok? ==> ProxyOf(r.value, underlying, adaptee, None) && ImplementsAsCreated(r.value, biz.value, None)
  {
    if biz.None? { return Err(NullPointer(Argument("bizInterface"))); }
    if underlying.Null? { return Err(NullPointer(Argument("underlying"))); }
    if adaptee.Null? { return Err(NullPointer(Argument("adaptee"))); }
    if !AutoImplemented(biz.value) { OwnInterfacesDistinct(biz.value, false); }
    r := CreateWrapperAdapter0(env, h, biz.value, underlying.id, adaptee.id, None, None);
  }

  /** `createWrapperAdapter(bizInterface, underlying, adaptee, attachable)`. */
  method CreateWrapperAdapterWithAttachable<K, V>(env: TypeEnv, h: Heap<K, V>, biz: Option<ClassId>, underlying: Ref, adaptee: Ref, attachable: Ref)
    returns (r: Result<Proxy>)
    requires RefIn(underlying, h.Keys) && RefIn(adaptee, h.Keys) && RefIn(attachable, h.Keys)
    ensures biz.None? ==> r == Err(NullPointer(Argument("bizInterface")))
    ensures biz.Some? && underlying.Null? ==> r == Err(NullPointer(Argument("underlying")))
    ensures biz.Some? && underlying.Obj? && adaptee.Null? ==> r == Err(NullPointer(Argument("adaptee")))
    ensures biz.Some? && underlying.Obj? && adaptee.Obj? && attachable.Null? ==> r == Err(NullPointer(Argument("attachable")))
    ensures biz.Some? && underlying.Obj? && adaptee.Obj? && attachable.Obj? ==>
      (r.Ok? <==> TypeRequirementsHold(env, h, biz.value, underlying.id, adaptee.id, None))
    ensures biz.Some? && underlying.Obj? && adaptee.Obj? && attachable.Obj? && r.Err? ==>
      r == Err(CheckTypeRequirements(env, h, biz.value, underlying.id, adaptee.id, None).error)
    ensures r.Ok? ==> ProxyOf(r.value, underlying, adaptee, Some(attachable.id)) && ImplementsAsCreated(r.value, biz.value, None)
  {
    if biz.None? { return Err(NullPointer(Argument("bizInterface"))); }
    if underlying.Null? { return Err(NullPointer(Argument("underlying"))); }
    if adaptee.Null? { return Err(NullPointer(Argument("adaptee"))); }
    if attachable.Null? { return Err(NullPointer(Argument("attachable"))); }
    if !AutoImplemented(biz.value) { OwnInterfacesDistinct(biz.value, true); }
    r := CreateWrapperAdapter0(env, h, biz.value, underlying.id, adaptee.id, Some(attachable.id), None);
  }

  /** `createWrapperAdapter(bizInterface, underlying, adaptee, tagInterfaces...)`. */
  method CreateWrapperAdapterWithTags<K, V>(env: TypeEnv, h: Heap<K, V>, biz: Option<ClassId>, underlying: Ref, adaptee: Ref,
                                            tags: Option<seq<Option<ClassId>>>)
    returns (r: Result<Proxy>)
    requires RefIn(underlying, h.Keys) && RefIn(adaptee, h.Keys)
    ensures biz.None? ==> r == Err(NullPointer(Argument("bizInterface")))
    ensures biz.Some? && underlying.Null? ==> r == Err(NullPointer(Argument("underlying")))
    ensures biz.Some? && underlying.Obj? && adaptee.Null? ==> r == Err(NullPointer(Argument("adaptee")))
    ensures biz.Some? && underlying.Obj? && adaptee.Obj? && tags.None? ==> r == Err(NullPointer(Argument("tagInterfaces")))
    ensures biz.Some? && underlying.Obj? && adaptee.Obj? && tags.Some? && (exists i | 0 <= i < |tags.value| :: tags.value[i].None?)
      ==> r.Err? && ReportsFirstNullTag(tags.value, r.error)
    ensures r.Ok? ==>
      && tags.Some? && (forall i | 0 <= i < |tags.value| :: tags.value[i].Some?)
      && TypeRequirementsHold(env, h, biz.value, underlying.id, adaptee.id, Some(Present(tags.value)))
      && ProxyOf(r.value, underlying, adaptee, None)
      && ImplementsAsCreated(r.value, biz.value, Some(Present(tags.value)))
      && Distinct(r.value.interfaces)
    ensures biz.Some? && underlying.Obj? && adaptee.Obj? && tags.Some? && (forall i | 0 <= i < |tags.value| :: tags.value[i].Some?)
      ==> (r.Ok? <==> TypeRequirementsHold(env, h, biz.value, underlying.id, adaptee.id, Some(Present(tags.value)))
                      && Distinct(ProxyInterfaces(biz.value, false, Some(Present(tags.value)))))
    ensures biz.Some? && underlying.Obj? && adaptee.Obj? && tags.Some? && (forall i | 0 <= i < |tags.value| :: tags.value[i].Some?)
      && !TypeRequirementsHold(env, h, biz.value, underlying.id, adaptee.id, Some(Present(tags.value)))
      ==> r == Err(CheckTypeRequirements(env, h, biz.value, underlying.id, adaptee.id, Some(Present(tags.value))).error)
    ensures biz.Some? && underlying.Obj? && adaptee.Obj? && tags.Some? && (forall i | 0 <= i < |tags.value| :: tags.value[i].Some?)
      && TypeRequirementsHold(env, h, biz.value, underlying.id, adaptee.id, Some(Present(tags.value)))
      && !Distinct(ProxyInterfaces(biz.value, false, Some(Present(tags.value))))
      ==> var s := ProxyInterfaces(biz.value, false, Some(Present(tags.value)));
          FirstRepeat(s, 0).Some? && r == Err(IllegalArgument(RepeatedInterface(s[FirstRepeat(s, 0).value])))
  {
    if biz.None? { return Err(NullPointer(Argument("bizInterface"))); }
    if underlying.Null? { return Err(NullPointer(Argument("underlying"))); }
    if adaptee.Null? { return Err(NullPointer(Argument("adaptee"))); }
    var checkedTags := RequireTagsNonNull(tags);
    if checkedTags.Err? { return Err(checkedTags.error); }
    PresentOfAllSome(tags.value, checkedTags.value);
    r := CreateWrapperAdapter0(env, h, biz.value, underlying.id, adaptee.id, None, Some(checkedTags.value));
  }

  /** `createWrapperAdapter(bizInterface, underlying, adaptee, attachable, tagInterfaces...)`. */
  method CreateWrapperAdapterWithAttachableAndTags<K, V>(env: TypeEnv, h: Heap<K, V>, biz: Option<ClassId>, underlying: Ref, adaptee: Ref,
                                                         attachable: Ref, tags: Option<seq<Option<ClassId>>>)
    returns (r: Result<Proxy>)
    requires RefIn(underlying, h.Keys) && RefIn(adaptee, h.Keys) && RefIn(attachable, h.Keys)
    ensures biz.None? ==> r == Err(NullPointer(Argument("bizInterface")))
    ensures biz.Some? && underlying.Null? ==> r == Err(NullPointer(Argument("underlying")))
    ensures biz.Some? && underlying.Obj? && adaptee.Null? ==> r == Err(NullPointer(Argument("adaptee")))
    ensures biz.Some? && underlying.Obj? && adaptee.Obj? && attachable.Null? ==> r == Err(NullPointer(Argument("attachable")))
    ensures biz.Some? && underlying.Obj? && adaptee.Obj? && attachable.Obj? && tags.None?
      ==> r == Err(NullPointer(Argument("tagInterfaces")))
    ensures biz.Some? && underlying.Obj? && adaptee.Obj? && attachable.Obj? && tags.Some?
      && (exists i | 0 <= i < |tags.value| :: tags.value[i].None?)
      ==> r.Err? && ReportsFirstNullTag(tags.value, r.error)
    ensures r.Ok? ==>
      && tags.Some? && (forall i | 0 <= i < |tags.value| :: tags.value[i].Some?)
      && TypeRequirementsHold(env, h, biz.value, underlying.id, adaptee.id, Some(Present(tags.value)))
      && ProxyOf(r.value, underlying, adaptee, Some(attachable.id))
      && ImplementsAsCreated(r.value, biz.value, Some(Present(tags.value)))
      && Distinct(r.value.interfaces)
    ensures biz.Some? && underlying.Obj? && adaptee.Obj? && attachable.Obj? && tags.Some?
      && (forall i | 0 <= i < |tags.value| :: tags.value[i].Some?)
      ==> (r.Ok? <==> TypeRequirementsHold(env, h, biz.value, underlying.id, adaptee.id, Some(Present(tags.value)))
                      && Distinct(ProxyInterfaces(biz.value, true, Some(Present(tags.value)))))
    ensures biz.Some? && underlying.Obj? && adaptee.Obj? && attachable.Obj? && tags.Some?
      && (forall i | 0 <= i < |tags.value| :: tags.value[i].Some?)
      && !TypeRequirementsHold(env, h, biz.value, underlying.id, adaptee.id, Some(Present(tags.value)))
      ==> r == Err(CheckTypeRequirements(env, h, biz.value, underlying.id, adaptee.id, Some(Present(tags.value))).error)
    ensures biz.Some? && underlying.Obj? && adaptee.Obj? && attachable.Obj? && tags.Some?
      && (forall i | 0 <= i < |tags.value| :: tags.value[i].Some?)
      && TypeRequirementsHold(env, h, biz.value, underlying.id, adaptee.id, Some(Present(tags.value)))
      && !Distinct(ProxyInterfaces(biz.value, true, Some(Present(tags.value))))
      ==> var s := ProxyInterfaces(biz.value, true, Some(Present(tags.value)));
          FirstRepeat(s, 0).Some? && r == Err(IllegalArgument(RepeatedInterface(s[FirstRepeat(s, 0).value])))
  {
    if biz.None? { return Err(NullPointer(Argument("bizInterface"))); }
    if underlying.Null? { return Err(NullPointer(Argument("underlying"))); }
    if adaptee.Null? { return Err(NullPointer(Argument("adaptee"))); }
    if attachable.Null? { return Err(NullPointer(Argument("attachable"))); }
    var checkedTags := RequireTagsNonNull(tags);
    if checkedTags.Err? { return Err(checkedTags.error); }
    PresentOfAllSome(tags.value, checkedTags.value);
    r := CreateWrapperAdapter0(env, h, biz.value, underlying.id, adaptee.id, Some(attachable.id), Some(checkedTags.value));
  }

  /** The proxy closes over exactly the given underlying instance, adaptee and attachable. */
  predicate ProxyOf(p: Proxy, underlying: Ref, adaptee: Ref, attachable: Option<NodeId>) {
    Obj(p.underlying) == underlying && Obj(p.adaptee) == adaptee && p.attachable == attachable
  }

  /** The elements of a tag array known to hold no null. */
  function Present(ts: seq<Option<ClassId>>): (r: seq<ClassId>)
    ensures |r| == |ts|
  {
    if ts == [] then [] else [ts[0].GetOr(0)] + Present(ts[1..])
  }

  lemma {:induction false} PresentOfAllSome(ts: seq<Option<ClassId>>, xs: seq<ClassId>)
    requires |xs| == |ts| && forall i | 0 <= i < |ts| :: ts[i] == Some(xs[i])
    ensures Present(ts) == xs
  {
    if ts != [] {
      assert forall i | 0 <= i < |ts[1..]| :: ts[1..][i] == Some(xs[1..][i]) by {
        forall i | 0 <= i < |ts[1..]| ensures ts[1..][i] == Some(xs[1..][i]) {
          assert ts[1..][i] == ts[i + 1];
        }
      }
      PresentOfAllSome(ts[1..], xs[1..]);
      assert xs == [xs[0]] + xs[1..];
    }
  }

  /* ---------------------------------------------------------------------- */
  /* The invocation handler                                                 */
  /* ---------------------------------------------------------------------- */

  /** A method as the handler compares it: its name and parameter types. */
  datatype MethodSig = MethodSig(name: string, params: seq<ClassId>)

  const UnwrapSig := MethodSig("unwrap_", [])
  const AdapteeSig := MethodSig("adaptee_", [])
  const GetAttachmentSig := MethodSig("getAttachment_", [ObjectType])
  const SetAttachmentSig := MethodSig("setAttachment_", [ObjectType, ObjectType])
  const ToStringSig := MethodSig("toString", [])

  /** `sameSignatureAs`: same name and the same parameter types in the same order. */
  predicate SameSignatureAs(a: MethodSig, m: MethodSig)
    ensures SameSignatureAs(a, m) <==> a == m
  {
    a.name == m.name && a.params == m.params
  }

  /** What the proxy does with a call. */
  datatype Handling =
    | ReturnUnderlying
    | ReturnAdaptee
    | GetFromAttachable
    | SetOnAttachable
    | Describe
    | ForwardToAdaptee

  /** The handler's decision for method `m`; the attachment methods are its own only when an attachable was given. */
  function Dispatch(hasAttachable: bool, m: MethodSig): (d: Handling)
    ensures d == ReturnUnderlying <==> m == UnwrapSig
    ensures d == ReturnAdaptee <==> m == AdapteeSig
    ensures d == GetFromAttachable <==> hasAttachable && m == GetAttachmentSig
    ensures d == SetOnAttachable <==> hasAttachable && m == SetAttachmentSig
    ensures d == Describe <==> m == ToStringSig
    ensures d == ForwardToAdaptee <==>
      && m !in {UnwrapSig, AdapteeSig, ToStringSig}
      && (hasAttachable ==> m !in {GetAttachmentSig, SetAttachmentSig})
  {
    if SameSignatureAs(UnwrapSig, m) then ReturnUnderlying
    else if SameSignatureAs(AdapteeSig, m) then ReturnAdaptee
    else if hasAttachable && SameSignatureAs(GetAttachmentSig, m) then GetFromAttachable
    else if hasAttachable && SameSignatureAs(SetAttachmentSig, m) then SetOnAttachable
    else if SameSignatureAs(ToStringSig, m) then Describe
    else ForwardToAdaptee
  }

  /**
   * The proxy as an object of the graph: an adapter whose `unwrap_` and
   * `adaptee_` are what its handler returns, and whose attachments, when an
   * attachable was given, are the attachable's. That parameter is typed
   * `Attachable`, so a given attachable always has an attachment map.
   */
  function ProxyNode<K, V>(h: Heap<K, V>, p: Proxy, cls: ClassId): (n: Node<K, V>)
    requires p.attachable.Some? ==> p.attachable.value in h && h[p.attachable.value].attachments.Some?
    ensures n.shape == Adapter(Obj(p.underlying), Obj(p.adaptee))
    ensures n.attachments.Some? <==> p.attachable.Some?
    ensures p.attachable.Some? ==> n.attachments == h[p.attachable.value].attachments
  {
    var attachments := if p.attachable.Some? then h[p.attachable.value].attachments else None;
    Node(cls, Adapter(Obj(p.underlying), Obj(p.adaptee)), attachments)
  }

  /** The chain methods of the proxy are answered by the handler itself, with or without an attachable. */
  lemma HandlerAnswersChainMethods(hasAttachable: bool)
    ensures Dispatch(hasAttachable, UnwrapSig) == ReturnUnderlying
    ensures Dispatch(hasAttachable, AdapteeSig) == ReturnAdaptee
    ensures Dispatch(hasAttachable, ToStringSig) == Describe
    ensures Dispatch(true, GetAttachmentSig) == GetFromAttachable
    ensures Dispatch(false, GetAttachmentSig) == ForwardToAdaptee
  {
  }

  /**
   * A proxy that passed the checks, placed in front of a well-formed chain
   * under a fresh identity, makes a longer well-formed chain: the proxy,
   * its adaptee, then the chain's own instances.
   */
  lemma ProxyExtendsWellFormedChain<K, V>(env: TypeEnv, h: Heap<K, V>, p: seq<NodeId>, px: Proxy, cls: ClassId,
                                          biz: ClassId, tags: Option<seq<ClassId>>, id: NodeId)
    requires WellFormedChain(h, p)
    requires px.underlying == p[0] && px.adaptee in h
    requires px.attachable.Some? ==> px.attachable.value in h && h[px.attachable.value].attachments.Some?
    requires TypeRequirementsHold(env, h, biz, px.underlying, px.adaptee, tags)
    requires id !in h
    ensures var h' := h[id := ProxyNode(h, px, cls)];
      && WellFormedChain(h', [id] + p)
      && Instances(h', [id] + p) == [id, px.adaptee] + Instances(h, p)
  {
    var h' := h[id := ProxyNode(h, px, cls)];
    var q := [id] + p;
    assert Closed(h') by {
      forall x | x in h' ensures ShapeIn(h'[x].shape, h'.Keys) {
        if x != id { assert ShapeIn(h[x].shape, h.Keys); }
      }
    }
    assert q[1..] == p;
    assert forall i | 0 <= i < |p| :: h'[p[i]] == h[p[i]];
    assert IsChainPrefix(h', q) by {
      forall i, j | 0 <= i < j < |q| ensures q[i] != q[j] {
        if i > 0 { assert q[i] == p[i - 1] && q[j] == p[j - 1]; }
        else { assert q[j] == p[j - 1]; }
      }
      forall i | 0 <= i < |q| - 1 ensures h'[q[i]].IsWrapper() && h'[q[i]].shape.unwrap == Obj(q[i + 1]) {
        if i > 0 { assert q[i] == p[i - 1] && q[i + 1] == p[i]; }
      }
    }
    assert Last(q) == Last(p);
    assert forall i | 0 <= i < |q| :: AdapteeContract(h', q[i]) by {
      forall i | 0 <= i < |q| ensures AdapteeContract(h', q[i]) {
        if i > 0 {
          assert q[i] == p[i - 1];
          assert AdapteeContract(h, p[i - 1]);
        }
      }
    }
    InstancesFrame(h, h', p);
  }

  /** The instances of a chain depend only on the objects along it. */
  lemma {:induction false} InstancesFrame<K, V>(h: Heap<K, V>, h': Heap<K, V>, p: seq<NodeId>)
    requires Closed(h) && Closed(h')
    requires forall i | 0 <= i < |p| :: p[i] in h && p[i] in h' && h'[p[i]] == h[p[i]]
    ensures Instances(h', p) == Instances(h, p)
  {
    if p != [] {
      InstancesFrame(h, h', p[1..]);
    }
  }
}
