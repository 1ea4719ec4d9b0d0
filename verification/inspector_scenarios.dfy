/**
 * The chains of the library's own examples, built as object graphs, and
 * what the inspections answer on them.
 */
module InspectorScenarios {
  import opened Options
  import opened Refs
  import opened Errors
  import opened Types
  import opened Chain
  import opened Inspector
  import opened InspectorProofs

  const Executor: ClassId := 10
  const ExecutorService: ClassId := 11
  const WrapperImpl: ClassId := 20
  const WrapperAdapterImpl: ClassId := 21
  const MutableWrapperImpl: ClassId := 22
  const Dummy: ClassId := 23
  const Chatty: ClassId := 30
  const ExistedAdapter: ClassId := 31
  const Existed: ClassId := 32
  const Base: ClassId := 33
  const ChattyAdapter: ClassId := 34

  /** Every class of the examples is an `Executor`; none is an `ExecutorService`. */
  function Env(): TypeEnv {
    TypeEnv(
      (target: ClassId, cls: ClassId) => target == cls || (target == Executor && cls >= WrapperImpl),
      (c: ClassId) => c == Executor || c == ExecutorService,
      (c: ClassId) => if c == Executor then 1 else 0)
  }

  const AdaptedKey: string := "adapted-existed-executor-wrapper-msg"
  const AdaptedValue: string := "adapted message"

  /** `WrapperImpl(null)`. */
  function NullUnwrapHeap(): Heap<string, string> {
    map[0 := Node(WrapperImpl, Wrapper(Null), None)]
  }

  lemma NullUnwrapScenario()
    ensures VerifyWrapperChainContracts(NullUnwrapHeap(), Obj(0)) == Err(NullPointer(UnwrapOf(WrapperImpl)))
  {
    NullUnwrapReported(NullUnwrapHeap(), [0]);
  }

  /** `WrapperImpl(DUMMY)`. */
  function NotBizHeap(): Heap<string, string> {
    map[0 := Node(WrapperImpl, Wrapper(Obj(1)), None), 1 := Node(Dummy, Plain, None)]
  }

  lemma NotBizScenario()
    ensures VerifyWrapperChainContractsBiz(Env(), NotBizHeap(), Obj(0), Some(ExecutorService))
      == Err(NotBizInstance(WrapperImpl, ExecutorService))
    ensures VerifyWrapperChainContracts(NotBizHeap(), Obj(0)) == Ok(())
  {
    var h := NotBizHeap();
    assert WellFormedChain(h, [0, 1]);
    VerifyReportsFirstViolation(h, [0, 1]);
  }

  /** `WrapperAdapterImpl(DUMMY, null)`. */
  function NullAdapteeHeap(): Heap<string, string> {
    map[0 := Node(WrapperAdapterImpl, Adapter(Obj(1), Null), None), 1 := Node(Dummy, Plain, None)]
  }

  lemma NullAdapteeScenario()
    ensures VerifyWrapperChainContracts(NullAdapteeHeap(), Obj(0)) == Err(NullPointer(AdapteeOf(WrapperAdapterImpl)))
  {
    var h := NullAdapteeHeap();
    assert IsChainPrefix(h, [0, 1]);
    VerifyReportsFirstViolation(h, [0, 1]);
    assert Events(h, [0, 1])[1] == Violation(NullPointer(AdapteeOf(WrapperAdapterImpl)));
  }

  /** `WrapperAdapterImpl(DUMMY, WrapperImpl(null))`: the adaptee is checked before its own null `unwrap` matters. */
  function WrapperAdapteeHeap(): Heap<string, string> {
    map[
      0 := Node(WrapperAdapterImpl, Adapter(Obj(1), Obj(2)), None),
      1 := Node(Dummy, Plain, None),
      2 := Node(WrapperImpl, Wrapper(Null), None)]
  }

  lemma WrapperAdapteeScenario()
    ensures VerifyWrapperChainContracts(WrapperAdapteeHeap(), Obj(0)) == Err(AdapteeIsWrapper(WrapperImpl, WrapperAdapterImpl))
  {
    var h := WrapperAdapteeHeap();
    assert IsChainPrefix(h, [0, 1]);
    VerifyReportsFirstViolation(h, [0, 1]);
    assert Events(h, [0, 1])[1] == Violation(AdapteeIsWrapper(WrapperImpl, WrapperAdapterImpl));
  }

  /** Two `MutableWrapperImpl`s unwrapping to each other. */
  function CycleHeap(): Heap<string, string> {
    map[1 := Node(MutableWrapperImpl, Wrapper(Obj(2)), None), 2 := Node(MutableWrapperImpl, Wrapper(Obj(1)), None)]
  }

  lemma CycleScenario()
    ensures VerifyWrapperChainContracts(CycleHeap(), Obj(2)) == Err(CyclicChain(MutableWrapperImpl))
  {
    var h := CycleHeap();
    assert IsChainPrefix(h, [2, 1]);
    CycleReported(h, [2, 1], 0);
  }

  /**
   * `ChattyExecutorWrapper(ExistedExecutorWrapperAdapter(base, ExistedExecutorWrapper(base)))`,
   * the adapter holding one attachment.
   */
  function AdaptedHeap(): Heap<string, string> {
    map[
      0 := Node(Chatty, Wrapper(Obj(1)), None),
      1 := Node(ExistedAdapter, Adapter(Obj(2), Obj(3)), Some(map[AdaptedKey := AdaptedValue])),
      2 := Node(Base, Plain, None),
      3 := Node(Existed, Plain, None)]
  }

  lemma AdaptedChain()
    ensures WellFormedChain(AdaptedHeap(), [0, 1, 2])
    ensures Instances(AdaptedHeap(), [0, 1, 2]) == [0, 1, 3, 2]
  {
    var h := AdaptedHeap();
    assert WellFormedChain(h, [0, 1, 2]);
    assert Instances(h, [2]) == [2];
    assert Instances(h, [1, 2]) == [1, 3] + Instances(h, [2]);
  }

  lemma AdaptedInstancesScenario()
    ensures GetInstancesOfWrapperChain(AdaptedHeap(), Obj(0)) == Ok([0, 1, 3, 2])
    ensures GetBaseOfWrapperChain(AdaptedHeap(), Obj(0)) == Ok(Obj(2))
  {
    AdaptedChain();
    InstancesOfWellFormedChain(AdaptedHeap(), [0, 1, 2]);
    BaseOfWellFormedChain(AdaptedHeap(), [0, 1, 2]);
  }

  /** Each class on the chain is found, adaptee included; a class on none of its instances is not. */
  lemma AdaptedContainsScenario(target: ClassId)
    requires target in {Existed, ExistedAdapter, Chatty, ExecutorService}
    ensures ContainsInstanceType(Env(), AdaptedHeap(), Obj(0), Some(target)) == Ok(target != ExecutorService)
  {
    var h := AdaptedHeap();
    AdaptedChain();
    var xs := Instances(h, [0, 1, 2]);
    ContainsOnWellFormedChain(Env(), h, [0, 1, 2], target);
    if target == Existed {
      assert InstanceOf(Env(), h[xs[2]].cls, target);
    } else if target == ExistedAdapter {
      assert InstanceOf(Env(), h[xs[1]].cls, target);
    } else if target == Chatty {
      assert InstanceOf(Env(), h[xs[0]].cls, target);
    }
  }

  lemma AdaptedAttachmentScenario()
    ensures GetAttachmentFromWrapperChain(AdaptedHeap(), Obj(0), Some(AdaptedKey)) == Ok(Some(AdaptedValue))
    ensures GetAttachmentFromWrapperChain(AdaptedHeap(), Obj(0), Some("not existed")) == Ok(None)
  {
    var h := AdaptedHeap();
    AdaptedChain();
    AttachmentOnWellFormedChain(h, [0, 1, 2], AdaptedKey, 1);
    AttachmentOnWellFormedChain(h, [0, 1, 2], "not existed", 4);
  }

  /**
   * The misuse `ChattyExecutorWrapperAdapter(ChattyExecutorWrapper(base))`:
   * an adapter whose adaptee is itself a `Wrapper`.
   */
  function MisusedAdapterHeap(): Heap<string, string> {
    map[
      0 := Node(ChattyAdapter, Adapter(Obj(2), Obj(1)), Some(map[])),
      1 := Node(Chatty, Wrapper(Obj(2)), None),
      2 := Node(Base, Plain, None)]
  }

  /**
   * The traversal is lazy: an answer found at the root is returned before
   * the root's adaptee is checked; otherwise the broken adaptee is reported.
   */
  lemma MisusedAdapterScenario()
    ensures ContainsInstanceType(Env(), MisusedAdapterHeap(), Obj(0), Some(ExecutorService))
      == Err(AdapteeIsWrapper(Chatty, ChattyAdapter))
    ensures ContainsInstanceType(Env(), MisusedAdapterHeap(), Obj(0), Some(Executor)) == Ok(true)
    ensures ContainsInstanceType(Env(), MisusedAdapterHeap(), Obj(0), Some(ChattyAdapter)) == Ok(true)
    ensures GetAttachmentFromWrapperChain(MisusedAdapterHeap(), Obj(0), Some("k1"))
      == Err(AdapteeIsWrapper(Chatty, ChattyAdapter))
  {
    var h := MisusedAdapterHeap();
    var p := [0, 2];
    assert IsChainPrefix(h, p);
    var evs := Events(h, p);
    assert evs[0] == Visit(0) && evs[1] == Violation(AdapteeIsWrapper(Chatty, ChattyAdapter));
    TravelReplaysChain(h, p, TestVisitor(InstanceTest(Env(), ExecutorService)), ());
    TravelReplaysChain(h, p, AttachmentVisitor("k1"), ());
  }

  /**
   * An adaptee that is also the next chain instance is visited twice: the
   * traversal's history records chain instances only.
   */
  function SharedAdapteeHeap(): Heap<string, string> {
    map[0 := Node(ExistedAdapter, Adapter(Obj(1), Obj(1)), None), 1 := Node(Base, Plain, None)]
  }

  lemma SharedAdapteeScenario()
    ensures GetInstancesOfWrapperChain(SharedAdapteeHeap(), Obj(0)) == Ok([0, 1, 1])
    ensures VerifyWrapperChainContracts(SharedAdapteeHeap(), Obj(0)) == Ok(())
  {
    var h := SharedAdapteeHeap();
    assert WellFormedChain(h, [0, 1]);
    assert Instances(h, [0, 1]) == [0, 1, 1];
    InstancesOfWellFormedChain(h, [0, 1]);
    VerifyReportsFirstViolation(h, [0, 1]);
  }
}
