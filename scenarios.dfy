/**
 * Client scenarios over `LinkTestConcept`'s required single-valued containment
 * `containment_1`, replaying the steps of the containment unit tests on a fresh graph
 * and stating the deltas and reads those tests expect.
 */
module ContainmentScenarios {
  import opened Wrappers
  import opened Deltas
  import opened ContainmentStore
  import opened Containments

  /** `LinkTestConcept-containment_1`: required, single-valued. */
  const Containment1 := Containment("LinkTestConcept-containment_1", false, false)

  /**
   * "setting a single value works": setting `containment_1` of `ltc` to a fresh `dtc`
   * makes it readable there, points `dtc`'s back-link at `ltc`, and emits exactly one
   * `ChildAdded` at index 0.
   */
  method SettingASingleValue() returns (read: Result<NodeId, Error>, dtcParent: Option<NodeId>, log: seq<Delta>)
    ensures read == Success(1)
    ensures dtcParent == Some(2)
    ensures log == [ChildAdded(2, Containment1, 0, 1)]
  {
    var dtc, ltc := 1, 2;
    var g := new Graph();
    var _ := g.RequiredSingleSet((ltc, Containment1), Some(dtc));
    read := g.RequiredSingleGet((ltc, Containment1));
    dtcParent := if dtc in g.parent then Some(g.parent[dtc]) else None;
    log := g.deltas;
  }

  /**
   * "unsetting a single value throws": once `containment_1` is set, setting it to
   * `undefined` fails and leaves the child in place.
   */
  method UnsettingASingleValue() returns (r: Outcome<Error>, read: Result<NodeId, Error>)
    ensures r == Fail(UnsetRequired)
    ensures read == Success(1)
  {
    var dtc, ltc := 1, 2;
    var g := new Graph();
    var _ := g.RequiredSingleSet((ltc, Containment1), Some(dtc));
    r := g.RequiredSingleSet((ltc, Containment1), None);
    read := g.RequiredSingleGet((ltc, Containment1));
  }

  /**
   * "moving a child in 1 step between parents": after `srcParent.containment_1 = child`
   * the child is read from `srcParent`, its back-links name `srcParent` and
   * `containment_1`, and reading `dstParent` fails. After `dstParent.containment_1 = child`
   * the child is read from `dstParent`, its back-links name `dstParent` and
   * `containment_1`, reading `srcParent`'s containment fails, and the log is `ChildAdded`
   * then `ChildMoved` with both indices 0.
   */
  method MovingAChildBetweenParents()
    returns (firstSrcRead: Result<NodeId, Error>, firstDstRead: Result<NodeId, Error>,
             firstParent: Option<NodeId>, firstContainment: Option<Containment>,
             srcRead: Result<NodeId, Error>, dstRead: Result<NodeId, Error>,
             childParent: Option<NodeId>, childContainment: Option<Containment>, log: seq<Delta>)
    ensures firstSrcRead == Success(1) && firstDstRead == Failure(UnsetRequiredRead)
    ensures firstParent == Some(2) && firstContainment == Some(Containment1)
    ensures srcRead == Failure(UnsetRequiredRead)
    ensures dstRead == Success(1)
    ensures childParent == Some(3) && childContainment == Some(Containment1)
    ensures log == [ChildAdded(2, Containment1, 0, 1), ChildMoved(2, Containment1, 0, 3, Containment1, 0, 1)]
  {
    var child, srcParent, dstParent := 1, 2, 3;
    var g := ChildInSourceParent();
    firstSrcRead := g.RequiredSingleGet((srcParent, Containment1));
    firstDstRead := g.RequiredSingleGet((dstParent, Containment1));
    firstParent := if child in g.parent then Some(g.parent[child]) else None;
    firstContainment := if child in g.containment then Some(g.containment[child]) else None;
    ghost var s := g.Snapshot();
    ghost var d := g.deltas;
    var _ := g.RequiredSingleSet((dstParent, Containment1), Some(child));
    assert g.deltas == d + [ChildMoved(2, Containment1, 0, 3, Containment1, 0, 1)];
    assert s.Without(child).Slot((srcParent, Containment1)) == None;
    srcRead := g.RequiredSingleGet((srcParent, Containment1));
    dstRead := g.RequiredSingleGet((dstParent, Containment1));
    childParent := if child in g.parent then Some(g.parent[child]) else None;
    childContainment := if child in g.containment then Some(g.containment[child]) else None;
    log := g.deltas;
  }

  /** The first step of the move scenario: `srcParent.containment_1 = child` on a fresh graph. */
  method ChildInSourceParent() returns (g: Graph)
    ensures fresh(g) && g.Valid()
    ensures g.Snapshot().AttachedAt(1, (2, Containment1)) && g.Snapshot().Slot((2, Containment1)) == Some(1)
    ensures g.parent[1] == 2 && g.containment[1] == Containment1
    ensures g.Snapshot().Slot((3, Containment1)) == None
    ensures g.deltas == [ChildAdded(2, Containment1, 0, 1)]
  {
    g := new Graph();
    var _ := g.RequiredSingleSet((2, Containment1), Some(1));
  }

  /** The first two steps of the replacement scenario: two parents, each holding one child. */
  method TwoParentsEachHoldingAChild() returns (g: Graph)
    ensures fresh(g) && g.Valid()
    ensures g.Snapshot().AttachedAt(1, (2, Containment1)) && g.Snapshot().Slot((2, Containment1)) == Some(1)
    ensures g.Snapshot().AttachedAt(4, (3, Containment1)) && g.Snapshot().Slot((3, Containment1)) == Some(4)
    ensures |g.deltas| == 2
  {
    g := new Graph();
    var _ := g.RequiredSingleSet((2, Containment1), Some(1));
    ghost var s := g.Snapshot();
    assert s.AttachedAt(1, (2, Containment1)) && s.Slot((2, Containment1)) == Some(1) && !s.IsAttached(4);
    var _ := g.RequiredSingleSet((3, Containment1), Some(4));
    assert s.Without(4) == s;
    ghost var t := g.Snapshot();
    assert t == s.PutInSlot((3, Containment1), 4);
    assert t.parent[1] == 2 && t.containment[1] == Containment1;
    assert t.child[(2, Containment1)] == 1;
  }

  /**
   * "moving a child directly between parents, replacing an already-present child":
   * `childToMove` ends in `dstParent`'s containment with its parent set to `dstParent`,
   * `childAlreadyAssigned` ends detached, `srcParent`'s containment is unset, and the
   * replacement adds exactly two deltas, `ChildDeleted` then `ChildReplaced`.
   */
  method ReplacingAnAlreadyPresentChild()
    returns (srcRead: Result<NodeId, Error>, dstRead: Result<NodeId, Error>, movedParent: Option<NodeId>,
             assignedHasParent: bool, log: seq<Delta>)
    ensures srcRead == Failure(UnsetRequiredRead)
    ensures dstRead == Success(4)
    ensures movedParent == Some(2)
    ensures !assignedHasParent
    ensures |log| == 4
    ensures log[2] == ChildDeleted(2, Containment1, 0, 1) && log[3] == ChildReplaced(2, Containment1, 0, 1, 4)
  {
    var childAlreadyAssigned, dstParent, srcParent, childToMove := 1, 2, 3, 4;
    var g := TwoParentsEachHoldingAChild();
    MoveIntoOccupiedSlot(g);
    srcRead := g.RequiredSingleGet((srcParent, Containment1));
    dstRead := g.RequiredSingleGet((dstParent, Containment1));
    movedParent := if childToMove in g.parent then Some(g.parent[childToMove]) else None;
    assignedHasParent := childAlreadyAssigned in g.parent;
    log := g.deltas;
  }

  /** The last step of the replacement scenario: `dstParent.containment_1 = childToMove`. */
  method MoveIntoOccupiedSlot(g: Graph)
    requires g.Valid()
    requires g.Snapshot().AttachedAt(1, (2, Containment1)) && g.Snapshot().Slot((2, Containment1)) == Some(1)
    requires g.Snapshot().AttachedAt(4, (3, Containment1)) && g.Snapshot().Slot((3, Containment1)) == Some(4)
    modifies g
    ensures g.Valid()
    ensures g.Snapshot().Slot((2, Containment1)) == Some(4) && g.Snapshot().Slot((3, Containment1)) == None
    ensures 1 !in g.parent && 4 in g.parent && g.parent[4] == 2
    ensures g.deltas == old(g.deltas) + [ChildDeleted(2, Containment1, 0, 1)] + [ChildReplaced(2, Containment1, 0, 1, 4)]
  {
    ghost var s := g.Snapshot();
    var _ := g.RequiredSingleSet((2, Containment1), Some(4));
    WithoutFrame(s, 1);
    assert s.Without(1).Without(4).Slot((3, Containment1)) == None;
  }
}
