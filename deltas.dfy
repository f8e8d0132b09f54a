/**
 * Node handles, containment descriptors and the containment deltas that the
 * containment value managers emit.
 */
module Deltas {

  /** A handle on a live node; node identity is handle equality. */
  type NodeId = nat

  /**
   * A containment feature as the language schema describes it: its key and its
   * multiplicity (optional or required, single or multiple).
   */
  datatype Containment = Containment(key: string, optional: bool, multiple: bool)

  /**
   * The containment deltas, with the fields of their serialized counterparts in
   * the same order; the embedded serialization chunks (`newNodes`,
   * `deletedNodes`, `replacedNodes`) are not part of the model.
   */
  datatype Delta =
    | ChildAdded(parent: NodeId, containment: Containment, index: int, newChild: NodeId)
    | ChildDeleted(parent: NodeId, containment: Containment, index: int, deletedChild: NodeId)
    | ChildReplaced(parent: NodeId, containment: Containment, index: int,
                    replacedChild: NodeId, newChild: NodeId)
    | ChildMoved(oldParent: NodeId, oldContainment: Containment, oldIndex: int,
                 newParent: NodeId, newContainment: Containment, newIndex: int, child: NodeId)
    | ChildMovedInSameContainment(parent: NodeId, containment: Containment,
                                  oldIndex: int, newIndex: int, child: NodeId)
}
