/**
 * Java runtime typing, given rather than computed: which class is
 * assignable to which (`Class.isAssignableFrom`), which classes are
 * interfaces (`Class.isInterface`) and how many public methods a class has
 * (`Class.getMethods().length`).
 */
module Types {
  import opened Refs

  datatype TypeEnv = TypeEnv(
    assignable: (ClassId, ClassId) -> bool,  // assignable(target, cls): target.isAssignableFrom(cls)
    isInterface: ClassId -> bool,
    methodCount: ClassId -> nat)

  /** `target.isAssignableFrom(cls)`: an instance of `cls` is an instance of `target`. */
  predicate InstanceOf(env: TypeEnv, cls: ClassId, target: ClassId) {
    env.assignable(target, cls)
  }

  /** The library's own interfaces and the two JDK classes the proxy refers to. */
  const WrapperType: ClassId := 0
  const WrapperAdapterType: ClassId := 1
  const AttachableType: ClassId := 2
  const ObjectType: ClassId := 3

  predicate AutoImplemented(c: ClassId) {
    c == WrapperType || c == WrapperAdapterType || c == AttachableType
  }
}
