/**
 * Object identity. A Java reference is either `null` or points at an object
 * in an immutable object graph; identity (what `IdentityHashMap` and `==`
 * compare) is the object's `NodeId`. Runtime classes are opaque `ClassId`s.
 */
module Refs {

  type NodeId = nat

  type ClassId = nat

  datatype Ref = Null | Obj(id: NodeId)

  /** A reference that is either null or points into the graph with domain `ids`. */
  predicate RefIn(r: Ref, ids: set<NodeId>) {
    r.Obj? ==> r.id in ids
  }
}
