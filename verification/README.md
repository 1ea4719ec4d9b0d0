# inspectable-wrappers in Dafny

A model of the wrapper-chain inspection library `io.foldright.inspectablewrappers`, with proofs about the model.

A *wrapper* implements `Wrapper` and yields the instance it wraps through `unwrap`. A *wrapper adapter* (`WrapperAdapter`) is a wrapper that also exposes an `adaptee`. An `Attachable` holds key/value attachments. The *wrapper chain* starts at a wrapper and follows `unwrap` until it reaches an instance that is not a wrapper. `Inspector` answers questions about the chain through one traversal, `travelWrapperChain`:

- does any instance satisfy a predicate, or have a type;
- the outermost attachment for a key;
- the list of instances, and the base of the chain;
- whether the chain meets its specification contracts.

The model also covers:

- `WrapperAdapterUtils`, which builds wrapper adapters as dynamic proxies;
- `AttachableDelegate`, the map behind an `Attachable`;
- `InternalUtils.unwrapNonNull`;
- the two legacy packages `wrain` and `wract`. Their static walks have no null or cycle checks, so they can run forever.

## Structure

| file | module | contents |
|---|---|---|
| `options.dfy`, `refs.dfy`, `errors.dfy`, `types.dfy` | `Options`, `Refs`, `Errors`, `Types` | Java references as `Null \| Obj(id)`; the exceptions as data, with their Java class (`KindOf`); runtime classes and assignability as a parameter `TypeEnv` |
| `chain.dfy` | `Chain` | the object graph (`Heap`), chain prefixes, the specification contracts (`WellFormedChain`), and the reference meaning of a traversal as a list of events |
| `inspector.dfy` | `Inspector` | `travelWrapperChain` and every inspection built on it |
| `inspector_proofs.dfy` | `InspectorProofs` | the traversal equals the replay of the chain's events; what each inspection returns on well-formed and broken chains |
| `inspector_scenarios.dfy` | `InspectorScenarios` | the library's own example chains, worked out |
| `internal_utils.dfy` | `InternalUtils` | the second `unwrapNonNull` |
| `attachable_delegate.dfy` | `AttachableDelegate` | set/get of attachments |
| `wrapper_adapter_utils.dfy` | `WrapperAdapterUtils` | argument checks, type requirements, array helpers, the proxy's method dispatch |
| `legacy_loop.dfy` | `LegacyLoop` | a loop without cycle detection, which either returns or diverges, and its justification against step-by-step iteration |
| `wrain.dfy`, `wract.dfy` | `Wrain`, `Wract` | the legacy packages |

### Modelling choices

- **Objects.** The heap is an immutable map from identities to nodes. A node carries:
  - its runtime class;
  - its shape: `Plain`, `Wrapper(unwrap)` or `Adapter(unwrap, adaptee)`;
  - its attachments, present only if it is `Attachable`.

  Object identity is the map key, which is what the traversal's `IdentityHashMap` compares.
- **Visitors.** A Java visitor is a closure that may keep state and may throw. Here a visitor is a function of an explicit state. It returns:
  - `Continue(next state)`;
  - `Stop(result)`, the non-empty `Optional`;
  - `Throw(exception)`.

  A traversal ends in `Found`, `Exhausted(final state)` or `Failed(exception)`. Examples of state: `getInstancesOfWrapperChain` threads the list it builds, and `getBaseOfWrapperChain` threads its one-element holder.
- **Reference semantics.** `Chain.Events` lists what a correct walk meets along the chain: each instance, its adaptee, or the first broken contract. `InspectorProofs.Replay` feeds those events to a visitor. The main theorem, `InspectorProofs.TravelReplaysChain`, states that the loop equals that replay on every object graph.
- **Legacy loops.** These loops have no cycle detection. `LegacyLoop.Run` gives them a total meaning: `Returns(value)` or `Diverges`. `LegacyLoop.RunIsFaithful` shows the meaning is faithful: `Returns(v)` means some number of loop iterations finishes with `v`, and `Diverges` means no number of iterations finishes.

### Notes on the code

- The traversal detects cycles with an identity set of the chain instances already walked (`Inspector.java:363-383`). The set holds chain instances only, so an adaptee that is also a later chain instance is visited twice without complaint (`InspectorScenarios.SharedAdapteeScenario`).
- Missing arguments fail with `NullPointerException`, raised by `requireNonNull` (`Inspector.java:360-361`).
- The check order is:
  - `containsInstanceTypeOnWrapperChain` and `getAttachmentFromWrapperChain` check the wrapper, then the second argument;
  - the two-argument `verifyWrapperChainContracts` only dereferences `bizInterface` inside the action, so a null `bizInterface` fails when the root is visited.
- The library calls the chain methods `unwrap`, `adaptee` and `getAttachment` in `Inspector`. It calls them `unwrap_`, `adaptee_`, `getAttachment_` and `setAttachment_` in `Wrapper.java`, `AttachableDelegate` and the proxy handler. In this snapshot the names do not line up. `WrapperAdapter.java:23` declares `adaptee()`, and `Attachable.java:32,44` declare `setAttachment` and `getAttachment`, all without underscores. So the handler's lookups of `adaptee_`, `getAttachment_` and `setAttachment_` (`utils/WrapperAdapterUtils.java:230-237`) name methods these interfaces do not declare. The model has one node shape. The handler's method table uses the underscored names, because those are the names it compares.

## Model

Source paths below are relative to the repository root.

| member | source | states |
|---|---|---|
| Chain.AdapteeEvents | src/main/java/io/foldright/inspectablewrappers/Inspector.java:372-376 | a non-adapter adds no event and an adapter adds exactly one; that event is a visit of the adaptee exactly when the adaptee contract (non-null, not a `Wrapper`) holds, and otherwise the `NullPointerException` of a null adaptee or the `IllegalStateException` naming a `Wrapper` adaptee and its adapter |
| Chain.EndEvents | src/main/java/io/foldright/inspectablewrappers/Inspector.java:378-383 | the walk ends cleanly exactly at an instance that is not a `Wrapper`; a null `unwrap` or a repeated instance adds exactly one violation |
| Chain.ChainOf | src/main/java/io/foldright/inspectablewrappers/Wrapper.java:28-46 | every object starts a chain that can be followed by `unwrap` until it stops, with no instance repeated |
| Inspector.UnwrapNonNull | src/main/java/io/foldright/inspectablewrappers/Inspector.java:410-414 | returns the instance `unwrap` points to, or a `NullPointerException` naming the wrapper's class exactly when `unwrap` is null |
| Inspector.AdapteeNonWrapper | src/main/java/io/foldright/inspectablewrappers/Inspector.java:391-404 | succeeds exactly when the adaptee is non-null and not a `Wrapper`, and then returns that adaptee; a null adaptee is a `NullPointerException` naming the adapter's class, and a `Wrapper` adaptee an `IllegalStateException` naming both classes |
| Inspector.Travel | src/main/java/io/foldright/inspectablewrappers/Inspector.java:358-361 | a null wrapper fails with `NullPointerException` before anything is visited |
| Inspector.NonStoppingTravel | src/main/java/io/foldright/inspectablewrappers/Inspector.java:365-385 | a visitor that never returns a present result never makes the traversal return one |
| Inspector.TestWrapperChain | src/main/java/io/foldright/inspectablewrappers/Inspector.java:298-305 | a null wrapper fails; a predicate that accepts the root answers true and one that throws on the root relays its exception, without walking further |
| Inspector.ContainsInstanceType | src/main/java/io/foldright/inspectablewrappers/Inspector.java:95-103 | the wrapper is checked for null, then the type; a root of the type answers true |
| Inspector.GetAttachmentFromWrapperChain | src/main/java/io/foldright/inspectablewrappers/Inspector.java:132-143 | the wrapper is checked for null, then the key; a root holding the key answers its value |
| Inspector.ForEachOnWrapperChain | src/main/java/io/foldright/inspectablewrappers/Inspector.java:325-332 | a null wrapper fails; an action that throws on the root relays its exception |
| Inspector.GetInstancesOfWrapperChain | src/main/java/io/foldright/inspectablewrappers/Inspector.java:161-165 | a null wrapper fails (the full result is `InspectorProofs.InstancesOfWellFormedChain`) |
| Inspector.GetBaseOfWrapperChain | src/main/java/io/foldright/inspectablewrappers/Inspector.java:184-188 | a null wrapper fails (the full result is `InspectorProofs.BaseOfWellFormedChain`) |
| Inspector.VerifyWrapperChainContracts | src/main/java/io/foldright/inspectablewrappers/Inspector.java:245-247 | a null wrapper fails (the full result is `InspectorProofs.VerifyReportsFirstViolation`) |
| Inspector.VerifyWrapperChainContractsBiz | src/main/java/io/foldright/inspectablewrappers/Inspector.java:271-278 | a null wrapper fails; then a null business interface fails at the root; a root not of the business interface fails with `IllegalStateException` naming both classes |
| Inspector.IsWrapper | src/main/java/io/foldright/inspectablewrappers/Inspector.java:221-223 | null is not a `Wrapper`; an object is one exactly when it is a plain wrapper or a `WrapperAdapter` |
| Inspector.Unwrap | src/main/java/io/foldright/inspectablewrappers/Inspector.java:207-210 | a non-`Wrapper` (null included) is returned unchanged; a `Wrapper` yields its `unwrap`, or a `NullPointerException` exactly when that is null; null comes out only for null in |
| InspectorProofs.WalkReplaysSuffix | src/main/java/io/foldright/inspectablewrappers/Inspector.java:363-384 | a loop iteration at any chain instance, with the instances before it as history, behaves as the replay of the events from there on |
| InspectorProofs.TravelReplaysChain | src/main/java/io/foldright/inspectablewrappers/Inspector.java:358-385 | on every object graph, the traversal from a wrapper equals the replay of its chain's events: the instances and adaptees in order, the first present result, the first broken contract |
| InspectorProofs.NoViolationIsWellFormed | src/main/java/io/foldright/inspectablewrappers/Wrapper.java:35-43 | a chain meets no broken contract exactly when it is well formed (no null `unwrap`, no cycle, sound adaptees, ending at a non-`Wrapper`) |
| InspectorProofs.VerifyReportsFirstViolation | src/main/java/io/foldright/inspectablewrappers/Inspector.java:225-247 | verification succeeds exactly on a well-formed chain; otherwise it reports the first broken contract met along the chain |
| InspectorProofs.VerifyAcceptsExactlyWellFormed | src/main/java/io/foldright/inspectablewrappers/Inspector.java:239-247 | for every object, verification succeeds exactly when the chain from it is well formed |
| InspectorProofs.AdapteeViolationReported | src/main/java/io/foldright/inspectablewrappers/Inspector.java:372-404 | on a chain whose adaptees are sound before an adapter with a null or `Wrapper` adaptee, verification fails with exactly the error `adapteeNonWrapper` raises at that adapter |
| InspectorProofs.NullUnwrapReported | src/main/java/io/foldright/inspectablewrappers/Wrapper.java:37-39 | a chain that is sound up to a `Wrapper` with a null `unwrap` fails with `NullPointerException` naming that wrapper's class |
| InspectorProofs.CycleReported | src/main/java/io/foldright/inspectablewrappers/Inspector.java:379-383 | a chain whose last `unwrap` returns an instance already on it fails with `IllegalStateException` naming that instance's class |
| InspectorProofs.WellFormedEvents | src/main/java/io/foldright/inspectablewrappers/Inspector.java:365-378 | on a well-formed chain the walk meets no violation and visits each instance followed by its adaptee |
| InspectorProofs.ForEachOnWellFormedChain | src/main/java/io/foldright/inspectablewrappers/Inspector.java:325-332 | on a well-formed chain the action runs on every instance, adaptees included, in order, and the first exception ends it |
| InspectorProofs.ForEachChecksContracts | src/main/java/io/foldright/inspectablewrappers/Inspector.java:306-332 | with an action that never throws, `forEachOnWrapperChain` fails exactly when verification does, with the same exception |
| InspectorProofs.InstancesOfWellFormedChain | src/main/java/io/foldright/inspectablewrappers/Inspector.java:161-165 | on a well-formed chain the result is the chain's instances with each adaptee right after its adapter |
| InspectorProofs.BaseOfWellFormedChain | src/main/java/io/foldright/inspectablewrappers/Inspector.java:184-188 | on a well-formed chain the base is the last chain instance, which is not a `Wrapper` and which `unwrap` returns unchanged |
| InspectorProofs.BaseOfNonWrapper | src/main/java/io/foldright/inspectablewrappers/Inspector.java:161-188 | an object that is not a `Wrapper` is its own base and its chain's only instance |
| InspectorProofs.TestOnWellFormedChain | src/main/java/io/foldright/inspectablewrappers/Inspector.java:298-305 | on a well-formed chain, with a predicate that does not throw there, the answer is true exactly when some instance satisfies it |
| InspectorProofs.ContainsOnWellFormedChain | src/main/java/io/foldright/inspectablewrappers/Inspector.java:95-103 | on a well-formed chain the answer is true exactly when some instance, adaptees included, is of the type |
| InspectorProofs.AttachmentOnWellFormedChain | src/main/java/io/foldright/inspectablewrappers/Inspector.java:132-143 | on a well-formed chain the result is the value of the outermost instance holding the key (outer wins), or null when none does |
| InspectorProofs.VerifyBizOnWellFormedChain | src/main/java/io/foldright/inspectablewrappers/Inspector.java:271-278 | on a well-formed chain verification succeeds when every instance is of the business interface, and otherwise names the outermost one that is not |
| InspectorScenarios.NullUnwrapScenario | src/test/java/io/foldright/inspectablewrappers/SpecificationContractsTest.java:20-27 | a wrapper of null fails verification with a null-`unwrap` exception naming its class |
| InspectorScenarios.NotBizScenario | src/test/java/io/foldright/inspectablewrappers/SpecificationContractsTest.java:29-38 | a sound chain not of `ExecutorService` passes plain verification and fails the business check, naming the wrapper's class |
| InspectorScenarios.NullAdapteeScenario | src/test/java/io/foldright/inspectablewrappers/SpecificationContractsTest.java:41-49 | an adapter with a null adaptee fails with a null-adaptee exception naming the adapter's class |
| InspectorScenarios.WrapperAdapteeScenario | src/test/java/io/foldright/inspectablewrappers/SpecificationContractsTest.java:52-62 | an adapter whose adaptee is a `Wrapper` fails with an exception naming both classes |
| InspectorScenarios.CycleScenario | src/test/java/io/foldright/inspectablewrappers/SpecificationContractsTest.java:65-77 | two wrappers unwrapping to each other fail with a cycle exception naming their class |
| InspectorScenarios.AdaptedChain | src/test/java/io/foldright/inspectablewrappers/WrapperAdapterTest.kt:21-25 | the example chain with an adapter is well formed and its instances include the adaptee right after the adapter |
| InspectorScenarios.AdaptedInstancesScenario | src/test/java/io/foldright/inspectablewrappers/WrapperAdapterTest.kt:21-25 | its instance list and base are as the adapter's placement dictates |
| InspectorScenarios.AdaptedContainsScenario | src/test/java/io/foldright/inspectablewrappers/WrapperAdapterTest.kt:27-31 | each class on the chain is found, the adaptee's included, and `ExecutorService` is not |
| InspectorScenarios.AdaptedAttachmentScenario | src/test/java/io/foldright/inspectablewrappers/WrapperAdapterTest.kt:33-36 | the adapter's attachment is found through the outer wrapper, and an absent key gives null |
| InspectorScenarios.MisusedAdapterScenario | src/test/java/io/foldright/inspectablewrappers/WrapperAdapterTest.kt:56-74 | a root answer is returned before the broken adaptee is looked at; any question that needs the adaptee fails naming both classes |
| InspectorScenarios.SharedAdapteeScenario | src/main/java/io/foldright/inspectablewrappers/Inspector.java:363-383 | an adaptee that is also the next chain instance is listed twice and passes verification, because the history holds chain instances only |
| InternalUtils.UnwrapNonNull | src/main/java/io/foldright/inspectablewrappers/InternalUtils.java:15-19 | succeeds exactly on a `Wrapper` with a non-null `unwrap`; null fails at the call, a non-`Wrapper` at the cast, a null `unwrap` with a message naming the instance |
| InternalUtils.AgreesWithInspector | src/main/java/io/foldright/inspectablewrappers/InternalUtils.java:15-19 | on a `Wrapper` it agrees with the inspector's own `unwrapNonNull`: the same instance, or a `NullPointerException` about the same class |
| AttachableDelegate.SetAttachment | src/main/java/io/foldright/inspectablewrappers/utils/AttachableDelegate.java:38-42 | a null key, then a null value, is rejected and leaves the map alone; otherwise the key is added or replaced, maps to the new value, and no other key changes |
| AttachableDelegate.GetAttachment | src/main/java/io/foldright/inspectablewrappers/utils/AttachableDelegate.java:55-58 | a null key is rejected; otherwise the value is present exactly when the key is stored, and is the stored value |
| AttachableDelegate.GetAfterSet | src/main/java/io/foldright/inspectablewrappers/utils/AttachableDelegate.java:38-58 | reading a key back after setting it gives the value set; other keys read as before |
| AttachableDelegate.SetOverwrites | src/main/java/io/foldright/inspectablewrappers/utils/AttachableDelegate.java:38-42 | setting a key twice is the same as setting it once to the second value |
| AttachableDelegate.SetExistingIsNoOp | src/main/java/io/foldright/inspectablewrappers/utils/AttachableDelegate.java:38-42 | setting a key to the value it has leaves the map unchanged |
| AttachableDelegate.DelegateBacksHolds | src/main/java/io/foldright/inspectablewrappers/utils/AttachableDelegate.java:55-58 | the inspector sees an attachment on an object exactly when its delegate returns a non-null value for the key |
| WrapperAdapterUtils.CheckTags | src/main/java/io/foldright/inspectablewrappers/utils/WrapperAdapterUtils.java:180-190 | succeeds exactly when every tag is an interface declaring no method; otherwise reports the first bad tag by 1-based position |
| WrapperAdapterUtils.CheckTypeRequirements | src/main/java/io/foldright/inspectablewrappers/utils/WrapperAdapterUtils.java:154-191 | succeeds exactly when all type requirements hold; otherwise the first failed check, in the code's order, as `IllegalArgumentException`: each of the five checks, given that the earlier ones pass, reports its own problem with the classes involved, and the tag checks report the first bad tag |
| WrapperAdapterUtils.RequireTagsNonNull | src/main/java/io/foldright/inspectablewrappers/utils/WrapperAdapterUtils.java:193-199 | a null array fails; otherwise it succeeds exactly when no element is null, returning the same elements, else names the first null element's 1-based position |
| WrapperAdapterUtils.Merge | src/main/java/io/foldright/inspectablewrappers/utils/WrapperAdapterUtils.java:201-207 | the result is the first array followed by the second, or the first alone when the second is null |
| WrapperAdapterUtils.CreateWrapperAdapter0 | src/main/java/io/foldright/inspectablewrappers/utils/WrapperAdapterUtils.java:122-152 | a proxy is created exactly when the type requirements hold and its interface list (business interface, the library's interfaces, then the tags) has no repeat. Otherwise the error is the first failed type check, or else the `IllegalArgumentException` that `Proxy.newProxyInstance` raises for the first repeated interface. A created proxy closes over the given instances and implements that list |
| WrapperAdapterUtils.FirstRepeat | src/main/java/io/foldright/inspectablewrappers/utils/WrapperAdapterUtils.java:144-148 | the interface list handed to `Proxy.newProxyInstance` has no repeat exactly when no position is found; a position found is the first whose interface already occurs earlier |
| WrapperAdapterUtils.RepeatedTagRejected | src/main/java/io/foldright/inspectablewrappers/utils/WrapperAdapterUtils.java:144-148 | for a business interface that passes the type checks, a tag given twice, or the business interface given again as a tag, is a repeat, and the repeat reported is that interface |
| WrapperAdapterUtils.CreateWrapperAdapter | src/main/java/io/foldright/inspectablewrappers/utils/WrapperAdapterUtils.java:47-53 | null checks in the order business interface, underlying, adaptee; then the outcome of the type checks, whose first failure is the error returned; without tags the interface list cannot repeat, since the business interface is none of the library's |
| WrapperAdapterUtils.CreateWrapperAdapterWithAttachable | src/main/java/io/foldright/inspectablewrappers/utils/WrapperAdapterUtils.java:77-85 | as above, with the attachable checked last and captured by the proxy |
| WrapperAdapterUtils.CreateWrapperAdapterWithTags | src/main/java/io/foldright/inspectablewrappers/utils/WrapperAdapterUtils.java:94-102 | as above, then the tag array and its elements, a null element reported by its 1-based position, the outermost first; then the type checks, whose first failure is the error returned; then a repeated interface is rejected, naming the first repeat; the tags are part of the proxy's interfaces |
| WrapperAdapterUtils.CreateWrapperAdapterWithAttachableAndTags | src/main/java/io/foldright/inspectablewrappers/utils/WrapperAdapterUtils.java:111-119 | all five null checks in the code's order, then each tag element, the outermost null one reported by position; then the type checks, whose first failure is the error returned; then a repeated interface is rejected, naming the first repeat |
| WrapperAdapterUtils.SameSignatureAs | src/main/java/io/foldright/inspectablewrappers/utils/WrapperAdapterUtils.java:256-258 | two methods match exactly when name and parameter types agree |
| WrapperAdapterUtils.Dispatch | src/main/java/io/foldright/inspectablewrappers/utils/WrapperAdapterUtils.java:127-144 | each chain method is answered by the handler; the attachment methods only when an attachable was given; every other call goes to the adaptee |
| WrapperAdapterUtils.ProxyNode | src/main/java/io/foldright/inspectablewrappers/utils/WrapperAdapterUtils.java:127-144 | the proxy is an adapter whose `unwrap_` and `adaptee_` are what it closes over; it is `Attachable` exactly when an `Attachable` was given, and then answers with that object's attachments |
| WrapperAdapterUtils.HandlerAnswersChainMethods | src/main/java/io/foldright/inspectablewrappers/utils/WrapperAdapterUtils.java:224-240 | `unwrap_`, `adaptee_` and `toString` are always answered by the handler; `getAttachment_` only with an attachable |
| WrapperAdapterUtils.ProxyExtendsWellFormedChain | src/main/java/io/foldright/inspectablewrappers/utils/WrapperAdapterUtils.java:154-191 | a proxy that passed the checks, put in front of a well-formed chain, makes a well-formed chain whose instances are the proxy, its adaptee, then the old ones |
| LegacyLoop.RunIsFaithful | src/main/java/io/foldright/wract/InspectableWrapper.java:43-51 | the loop's total meaning is faithful: a returned value is reached after finitely many iterations, and divergence means no number of iterations finishes |
| LegacyLoop.Check | src/main/java/io/foldright/wrain/Wrapper.java:57-62 | a non-`Wrapper` start answers false at once; a predicate answer other than false at the start is the answer |
| LegacyLoop.CheckOnRun | src/main/java/io/foldright/wract/Wrapper.java:35-43 | on a chain ending at a non-`Wrapper`, the answer is the first predicate result other than false, or false; the end object is never tested |
| LegacyLoop.CheckOnCycle | src/main/java/io/foldright/wract/Wrapper.java:35-43 | around a cycle of wrappers that all fail the predicate the loop never returns |
| LegacyLoop.CheckOnRunAnswersAny | src/main/java/io/foldright/wrain/Wrapper.java:57-62 | with a predicate that never throws, the answer is true exactly when some wrapper of the chain satisfies it |
| Wrain.Check | src/main/java/io/foldright/wrain/Wrapper.java:57-62 | null or a non-`Wrapper` answers false; a predicate answer other than false at the root is the answer |
| Wrain.IsInstanceOf | src/main/java/io/foldright/wrain/Wrapper.java:40-42 | a non-`Wrapper` answers false; a null class fails only once a wrapper is tested; a root of the class answers true |
| Wrain.IsInstanceOfOnRun | src/main/java/io/foldright/wrain/Wrapper.java:40-42 | on a chain, true exactly when one of its wrappers is of the class; the end object is not looked at |
| Wrain.GetAttachment | src/main/java/io/foldright/wrain/Wrapper.java:79-87 | a non-`Wrapper` gives null; an `Attachable` root holding the key gives its value |
| Wrain.GetAttachmentOnRun | src/main/java/io/foldright/wrain/Wrapper.java:79-87 | on a chain, the value of the outermost wrapper holding the key (outer wins), or null |
| Wrain.GetAttachmentOnCycle | src/main/java/io/foldright/wrain/Wrapper.java:79-87 | around a cycle where no wrapper holds the key the loop never returns |
| Wrain.ExampleScenario | src/test/java/io/foldright/wrain/WrapperTest.kt:19-34 | the package's example chain answers the type and attachment questions as its test expects |
| Wract.Check | src/main/java/io/foldright/wract/Wrapper.java:35-43 | null or a non-`Wrapper` answers false; a predicate answer other than false at the root is the answer |
| Wract.CheckOnRun | src/main/java/io/foldright/wract/Wrapper.java:35-43 | on a chain of plain or inspectable wrappers, with a predicate that never throws, true exactly when one satisfies it |
| Wract.CheckOnCycle | src/main/java/io/foldright/wract/Wrapper.java:35-43 | around a cycle that all fail the predicate the loop never returns |
| Wract.GetAttachment | src/main/java/io/foldright/wract/InspectableWrapper.java:42-53 | a non-`InspectableWrapper` gives null; a root holding the key gives its value; a root with a null map makes the loop run forever |
| Wract.GetAttachmentOnRun | src/main/java/io/foldright/wract/InspectableWrapper.java:42-53 | on a chain, the first wrapper that holds the key or has a null map decides: its value, or divergence; null if there is none |
| Wract.GetAttachmentFixed | src/main/java/io/foldright/wract/InspectableWrapper.java:42-53 | the corrected loop: a non-`InspectableWrapper` gives null; a root holding the key gives its value |
| Wract.GetAttachmentFixedOnRun | src/main/java/io/foldright/wract/InspectableWrapper.java:42-53 | the corrected loop on a chain returns the outermost value (outer wins) or null, skipping wrappers whose map is null |
| Wract.GetAttachmentFixedOnCycle | src/main/java/io/foldright/wract/InspectableWrapper.java:42-53 | the corrected loop around a cycle where no wrapper holds the key never returns |
| Wract.FixedAgreesWithoutNullMaps | src/main/java/io/foldright/wract/InspectableWrapper.java:42-53 | wherever no null map is reached, the corrected loop returns what the code as written returns |
| Wract.DefaultAttachmentsHang | src/main/java/io/foldright/wract/InspectableWrapper.java:26-29 | a single wrapper keeping the default (null) map makes the code as written run forever, for every number of iterations, while the corrected loop returns null |

## Left out

- Null function arguments (`process`, `predicate`, `action`) are left out: a function value in the model cannot be null. The null checks of objects, keys, types and arrays are modelled.
- The `ClassCastException` of an attachment whose value has another type than the caller expects is left out. It comes from an unchecked cast in the caller's code; the model's attachment values have one type.
- Exception messages are left out. Each exception carries the classes and argument names the message would name, and its Java class (`Errors.KindOf`), but not the text.
- Reflection is left out. A proxy is a record of what its handler closes over. `Method.invoke` on the adaptee is the `ForwardToAdaptee` decision. Of `Proxy.newProxyInstance`, only the repeated-interface check is modelled (`WrapperAdapterUtils.FirstRepeat`). Its other checks (class-loader visibility, non-public interfaces from different packages, the 65535-interface limit), the class loader itself and the string built by `toString` are not modelled.
- Runtime types are a parameter (`Types.TypeEnv`): assignability, "is an interface" and method counts. The class `AutoImplemented` lists (`Wrapper`, `WrapperAdapter`, `Attachable`) is modelled. The JDK's type hierarchy is not.
- Concurrency is left out. Graphs are immutable during a call, as the library requires, and the thread safety of `ConcurrentHashMap` inside `AttachableDelegate` is not modelled.
- wrain's `utils/AttachableDelegate` is left out. It is not part of the core, and its methods do not even carry the names of the interface it implements.
- Null keys for the legacy `getAttachment` walks are left out. What a null key does there depends on each `Attachable` implementation.
- Inspector.GetInstancesOfWrapperChain: its own contract states only the null-argument case; what it returns on a chain is `InspectorProofs.InstancesOfWellFormedChain`.
- Inspector.GetBaseOfWrapperChain: its own contract states only the null-argument case; what it returns on a chain is `InspectorProofs.BaseOfWellFormedChain`.
- Inspector.VerifyWrapperChainContracts: its own contract states only the null-argument case; what it reports on a chain is `InspectorProofs.VerifyReportsFirstViolation`.
- LegacyLoop.Check: its own contract describes only the first step; whole chains and cycles are `LegacyLoop.CheckOnRun` and `LegacyLoop.CheckOnCycle`.
- Wrain.Check: its own contract describes only the first step; whole chains are `Wrain.IsInstanceOfOnRun` and `LegacyLoop.CheckOnRunAnswersAny`.
- Wract.Check: its own contract describes only the first step; whole chains and cycles are `Wract.CheckOnRun` and `Wract.CheckOnCycle`.
- Inspector.TestWrapperChain: its own contract states only the null-argument and root cases; the answer on a whole well-formed chain is `InspectorProofs.TestOnWellFormedChain`.
- Inspector.ContainsInstanceType: its own contract states only the null-argument and root cases; the answer on a whole well-formed chain is `InspectorProofs.ContainsOnWellFormedChain`.
- Inspector.GetAttachmentFromWrapperChain: its own contract states only the null-argument and root cases; the value found on a whole well-formed chain is `InspectorProofs.AttachmentOnWellFormedChain`.
- Inspector.ForEachOnWrapperChain: its own contract states only the null-argument and root cases; the actions run on a whole well-formed chain are `InspectorProofs.ForEachOnWellFormedChain`.
- Inspector.VerifyWrapperChainContractsBiz: its own contract states only the null-argument and root cases; the verdict on a whole chain is `InspectorProofs.VerifyBizOnWellFormedChain`.
- Wrain.IsInstanceOf: its own contract describes only the first step; the answer on a whole chain is `Wrain.IsInstanceOfOnRun`.
- Wrain.GetAttachment: its own contract describes only the first step; the value found on a whole chain is `Wrain.GetAttachmentOnRun`, and a cycle is `Wrain.GetAttachmentOnCycle`.
- Wract.GetAttachment: its own contract describes only the first step; the value found on a whole chain, or the hang at a null attachment map, is `Wract.GetAttachmentOnRun`.
- Wract.GetAttachmentFixed: its own contract describes only the first step; the value found on a whole chain is `Wract.GetAttachmentFixedOnRun`, and a cycle is `Wract.GetAttachmentFixedOnCycle`.
- Caller code is modelled as pure functions of the object: the legacy predicates, `wrainGetAttachment`, `wractAttachments()` and the inspector's attachment lookups. Attachment lookups never throw in the model. A stateful predicate, for example one that counts its calls, could end a cyclic legacy walk that the model calls divergent, so `LegacyLoop.CheckOnCycle`, `Wrain.GetAttachmentOnCycle` and the divergence results hold only for pure caller code.

## Findings

| source | as written | input that shows it | evidently intended | confidence | as-written member | corrected member |
|---|---|---|---|---|---|---|
| src/main/java/io/foldright/wract/InspectableWrapper.java:45 | when `wractAttachments()` returns null the loop `continue`s without unwrapping, so the next pass tests the same wrapper again, forever; and the inherited default of `wractAttachments()` (lines 26-29) returns null | an `InspectableWrapper` that keeps the default `wractAttachments()`, wrapping null, passed to `getAttachment` with any key | a wrapper with no attachments is skipped: unwrap and go on to the next wrapper | high (not executed) | Wract.GetAttachment, Wract.DefaultAttachmentsHang | Wract.GetAttachmentFixed, Wract.GetAttachmentFixedOnRun |
