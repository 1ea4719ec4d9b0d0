/**
 * The exceptions the library throws, identified by what their messages
 * name (classes, argument names, 1-based tag positions) rather than by the
 * message text itself.
 */
module Errors {
  import opened Refs

  /** Where a `NullPointerException` comes from. */
  datatype NullSite =
    | Argument(name: string)                              // requireNonNull(x, "<name> is null")
    | UnwrapOf(wrapper: ClassId)                          // "unwrap of Wrapper(<class>) is null"
    | UnwrapOfInstance(instance: NodeId, wrapper: ClassId) // "unwrap of <instance>(class: <class>) is null"
    | AdapteeOf(adapter: ClassId)                         // "adaptee of WrapperAdapter(<class>) is null"
    | TagElement(position: nat)                           // "tagInterfaces[<position>] is null", 1-based
    | Receiver                                            // a method called on a null reference

  /** Why `WrapperAdapterUtils`, or the JDK proxy factory it calls, rejects its arguments (`IllegalArgumentException`). */
  datatype TypeProblem =
    | BizNotInterface(biz: ClassId)
    | BizAutoImplemented(biz: ClassId)
    | UnderlyingNotBiz(underlying: ClassId, biz: ClassId)
    | AdapteeNotBiz(adaptee: ClassId, biz: ClassId)
    | AdapteeIsWrapperType(adaptee: ClassId)
    | TagNotInterface(position: nat, tag: ClassId)
    | TagHasMethods(position: nat, tag: ClassId)
    | RepeatedInterface(repeated: ClassId)                // from `Proxy.newProxyInstance`: "repeated interface: <name>"

  datatype Error =
    | NullPointer(site: NullSite)
      // "CYCLIC wrapper chain, duplicate instance of <class>"
    | CyclicChain(duplicate: ClassId)
      // "adaptee(<class>) of WrapperAdapter(<class>) is an instance of Wrapper, ..."
    | AdapteeIsWrapper(adaptee: ClassId, adapter: ClassId)
      // "the instance(<class>) on wrapper chain is not an instance of <biz>"
    | NotBizInstance(instance: ClassId, biz: ClassId)
    | IllegalArgument(problem: TypeProblem)
      // a cast of an instance of <class> to a library interface it does not implement
    | ClassCast(cls: ClassId)
      // any exception thrown by caller-supplied code (a visitor, predicate or action)
    | Raised(exception: ClassId)

  datatype Kind =
    | NullPointerException
    | IllegalStateException
    | IllegalArgumentException
    | ClassCastException
    | CallerException

  function KindOf(e: Error): Kind {
    match e
    case NullPointer(_) => NullPointerException
    case CyclicChain(_) => IllegalStateException
    case AdapteeIsWrapper(_, _) => IllegalStateException
    case NotBizInstance(_, _) => IllegalStateException
    case IllegalArgument(_) => IllegalArgumentException
    case ClassCast(_) => ClassCastException
    case Raised(_) => CallerException
  }

  /** A value, or the exception thrown instead of returning it. */
  datatype Result<+R> = Ok(value: R) | Err(error: Error)
}
