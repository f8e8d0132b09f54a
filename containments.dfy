/**
 * The containment value managers: each one owns the value of one containment
 * feature on one node, keeps the children's back-links in step with that value,
 * and emits one delta (two when a replaced child is deleted) per change.
 *
 * The model is one arena, `Graph`, holding the state the managers and the nodes
 * update in place: the back-links of every node, the box of every single-valued
 * manager, the array of every multi-valued manager, and the log of emitted deltas.
 * A manager is addressed by its key (container, feature).
 */
module Containments {
  import opened Wrappers
  import opened Splices
  import opened Deltas
  import opened ContainmentStore

  /** The errors the managers throw. */
  datatype Error =
    | UnsetRequiredRead          // `throwOnReadOfUnset`
    | UnsetRequired              // `throwOnUnset`
    | IndexOutOfBounds           // `checkIndex`
    | AddDirectlyOnOccupiedSlot  // single-valued `addDirectly` on an occupied box

  /**
   * `checkIndex(index, length, allowEnd)`: passes for `0 <= index < length`, and also
   * for `index == length` when `allowEnd` holds.
   */
  function CheckIndex(index: int, length: nat, allowEnd: bool): (r: Outcome<Error>)
    ensures r.Pass? <==> 0 <= index < (if allowEnd then length + 1 else length)
    ensures r.Fail? ==> r.error == IndexOutOfBounds
  {
    if 0 <= index && (index < length || (allowEnd && index == length)) then Pass
    else Fail(IndexOutOfBounds)
  }

  class Graph {
    var parent: map<NodeId, NodeId>
    var containment: map<NodeId, Containment>
    var child: map<ManagerKey, NodeId>
    var children: map<ManagerKey, seq<NodeId>>
    /** Every delta emitted so far, in emission order. */
    var deltas: seq<Delta>

    /** The back-links and manager storage as a value. */
    function Snapshot(): Store
      reads this
    {
      Store(parent, containment, child, children)
    }

    /** The ownership invariant holds of the current state. */
    ghost predicate Valid()
      reads this
    {
      Snapshot().Consistent()
    }

    /** A graph in which no node is attached, every manager is empty and nothing was emitted. */
    constructor ()
      ensures Valid() && Snapshot() == Empty && deltas == []
    {
      parent, containment, child, children, deltas := map[], map[], map[], map[], [];
    }

    // ---------------------------------------------------------------------------
    // Helpers whose code is not part of this model; their bodies implement the
    // behaviour the managers rely on.

    /** `attachTo(container, feature)`: both back-links of `x` set. */
    method AttachTo(x: NodeId, k: ManagerKey)
      modifies this
      ensures Snapshot() == old(Snapshot()).Link(x, k) && deltas == old(deltas)
    {
      parent := parent[x := k.0];
      containment := containment[x := k.1];
    }

    /** `detach()`: both back-links of `x` cleared. */
    method Detach(x: NodeId)
      modifies this
      ensures Snapshot() == old(Snapshot()).Unlink(x) && deltas == old(deltas)
    {
      parent := parent - {x};
      containment := containment - {x};
    }

    /** `emitDelta`: the delta handed to the delta handler. */
    method EmitDelta(d: Delta)
      modifies this
      ensures Snapshot() == old(Snapshot()) && deltas == old(deltas) + [d]
    {
      deltas := deltas + [d];
    }

    /**
     * `removeFromParent(p, x)`: `x` taken out of the manager of `x.containment` on `p`
     * on the direct path (back-links and log untouched); returns the index it had.
     */
    method RemoveFromParent(p: NodeId, x: NodeId) returns (index: int)
      requires x in containment
      modifies this
      ensures index == old(Snapshot().IndexIn((p, containment[x]), x))
      ensures Snapshot() == old(Snapshot().TakenOut((p, containment[x]), x))
      ensures deltas == old(deltas)
    {
      ghost var s := Snapshot();
      var k := (p, containment[x]);
      if k.1.multiple {
        index := MultiRemoveDirectly(k, x);
        assert s.TakenOut(k, x) == if index >= 0 then s.WithChildren(k, RemoveAt(s.Children(k), index)) else s;
      } else {
        SingleSetDirectly(k, None);
        index := 0;
      }
    }

    // ---------------------------------------------------------------------------
    // SingleContainmentValueManager

    /** `getDirectly()`: the content of the box; under the invariant, exactly the node attached here. */
    function SingleGetDirectly(k: ManagerKey): (r: Option<NodeId>)
      reads this
      ensures Valid() && !k.1.multiple ==>
        forall x: NodeId :: r == Some(x) <==> Snapshot().AttachedAt(x, k)
    {
      BackLinkIffAll(Snapshot(), k);
      Snapshot().Slot(k)
    }

    /** `isSet()`: under the invariant, whether some node is attached here. */
    function SingleIsSet(k: ManagerKey): (b: bool)
      reads this
      ensures b <==> SingleGetDirectly(k) != None
      ensures Valid() && !k.1.multiple ==> (b <==> exists x: NodeId :: Snapshot().AttachedAt(x, k))
    {
      BackLinkIffAll(Snapshot(), k);
      assert Valid() && k in child ==> Snapshot().AttachedAt(child[k], k);
      k in child
    }

    /** `setDirectly(newChild)`: only the box changes. */
    method SingleSetDirectly(k: ManagerKey, newChild: Option<NodeId>)
      requires !k.1.multiple
      modifies this
      ensures Snapshot() == old(Snapshot()).WithSlot(k, newChild) && deltas == old(deltas)
    {
      child := if newChild.Some? then child[k := newChild.value] else child - {k};
    }

    /** `addDirectly(newChild)`: fills an empty box; fails, changing nothing, on an occupied one. */
    method SingleAddDirectly(k: ManagerKey, newChild: NodeId) returns (r: Outcome<Error>)
      requires !k.1.multiple
      modifies this
      ensures r.Fail? <==> old(Snapshot().Slot(k)).Some?
      ensures r.Fail? ==> r.error == AddDirectlyOnOccupiedSlot && Snapshot() == old(Snapshot())
      ensures r.Pass? ==> Snapshot() == old(Snapshot()).WithSlot(k, Some(newChild))
      ensures deltas == old(deltas)
    {
      var oldChild := SingleGetDirectly(k);
      if oldChild.Some? {
        return Fail(AddDirectlyOnOccupiedSlot);
      }
      SingleSetDirectly(k, Some(newChild));
      r := Pass;
    }

    /**
     * `set(newChild)` on an empty box with a `newChild`: a child attached elsewhere is
     * taken out of its old manager and one `ChildMoved` with old index 0 is emitted;
     * an unattached one gets one `ChildAdded`. Either way it ends in the box, attached here.
     */
    method SetIntoEmptySlot(k: ManagerKey, x: NodeId)
      requires Valid() && !k.1.multiple && Snapshot().Slot(k) == None
      modifies this
      ensures Valid()
      ensures Snapshot() == old(Snapshot()).Without(x).PutInSlot(k, x)
      ensures old(Snapshot().IsAttached(x)) ==>
        deltas == old(deltas) + [ChildMoved(old(parent[x]), old(containment[x]), 0, k.0, k.1, 0, x)]
      ensures !old(Snapshot().IsAttached(x)) ==>
        deltas == old(deltas) + [ChildAdded(k.0, k.1, 0, x)]
    {
      ghost var s := Snapshot();
      WithoutKeepsConsistent(s, x);
      if x in parent && x in containment {
        BackLinkIff(s, k, x);
        var oldParent := parent[x];
        var _ := RemoveFromParent(oldParent, x);
        EmitDelta(ChildMoved(oldParent, containment[x], 0, k.0, k.1, 0, x));
        assert s.Without(x) == Snapshot().Unlink(x);
      } else {
        EmitDelta(ChildAdded(k.0, k.1, 0, x));
        assert s.Without(x) == Snapshot();
      }
      ghost var a := Snapshot();
      SingleSetDirectly(k, Some(x));
      AttachTo(x, k);
      assert Snapshot() == a.PutInSlot(k, x);
      UnlinkThenPut(a, k, x);
      PutInSlotKeepsConsistent(s.Without(x), k, x);
    }

    /**
     * First half of a replacement: `ChildDeleted` for the occupant `y` of the box of
     * `k`, then `y` detached (the box itself still names `y`).
     */
    method DetachOccupant(k: ManagerKey, y: NodeId)
      requires Valid() && !k.1.multiple && Snapshot().Slot(k) == Some(y)
      modifies this
      ensures Snapshot() == old(Snapshot()).Unlink(y)
      ensures deltas == old(deltas) + [ChildDeleted(k.0, k.1, 0, y)]
    {
      BackLinkIff(Snapshot(), k, y);
      if y in parent && y in containment && parent[y] == k.0 && containment[y] == k.1 {
        EmitDelta(ChildDeleted(k.0, k.1, 0, y));
      } else {
        assert false;
      }
      Detach(y);
    }

    /**
     * `set(newChild)` on a box holding `y`, with `x != y`: `ChildDeleted` for `y` when
     * `y`'s back-links point here (always, under the invariant), `y` detached, `x` taken
     * out of its old manager without a delta, installed and attached here, then
     * `ChildReplaced`.
     */
    method ReplaceChild(k: ManagerKey, y: NodeId, x: NodeId)
      requires Valid() && !k.1.multiple && Snapshot().Slot(k) == Some(y) && x != y
      modifies this
      ensures Valid()
      ensures Snapshot() == old(Snapshot()).Without(y).Without(x).PutInSlot(k, x)
      ensures deltas == old(deltas) + [ChildDeleted(k.0, k.1, 0, y)] + [ChildReplaced(k.0, k.1, 0, y, x)]
    {
      ghost var s := Snapshot();
      ghost var d := deltas + [ChildDeleted(k.0, k.1, 0, y)];
      DetachOccupant(k, y);
      if x in parent && x in containment {
        var _ := RemoveFromParent(parent[x], x);
      }
      SingleSetDirectly(k, Some(x));
      AttachTo(x, k);
      assert deltas == d;
      EmitDelta(ChildReplaced(k.0, k.1, 0, y, x));
      assert Snapshot() == ReplacedInOrder(s, k, y, x);
      ReplaceKeepsConsistent(s, k, y, x);
    }

    // ---------------------------------------------------------------------------
    // OptionalSingleContainmentValueManager

    /** `get()`: the content of the box, possibly empty. */
    function OptionalSingleGet(k: ManagerKey): (r: Option<NodeId>)
      reads this
      ensures Valid() && !k.1.multiple ==>
        forall x: NodeId :: r == Some(x) <==> Snapshot().AttachedAt(x, k)
    {
      SingleGetDirectly(k)
    }

    /**
     * `set(newChild)`: afterwards the box holds `newChild` and the invariant holds; a
     * no-op (no state change, no delta) when the box already holds `newChild`; unsetting
     * detaches the old child and emits one `ChildDeleted`.
     */
    method OptionalSingleSet(k: ManagerKey, newChild: Option<NodeId>)
      requires Valid() && !k.1.multiple && k.1.optional
      modifies this
      ensures Valid()
      ensures Snapshot().Slot(k) == newChild
      ensures newChild.Some? ==> Snapshot().AttachedAt(newChild.value, k)
      ensures old(Snapshot().Slot(k)) == newChild ==>
        Snapshot() == old(Snapshot()) && deltas == old(deltas)
      ensures old(Snapshot().Slot(k)).None? && newChild.Some? ==>
        var x := newChild.value;
        && Snapshot() == old(Snapshot()).Without(x).PutInSlot(k, x)
        && deltas == old(deltas) + [
             if old(Snapshot().IsAttached(x))
             then ChildMoved(old(parent[x]), old(containment[x]), 0, k.0, k.1, 0, x)
             else ChildAdded(k.0, k.1, 0, x)]
      ensures old(Snapshot().Slot(k)).Some? && newChild.None? ==>
        var y := old(Snapshot().Slot(k)).value;
        && Snapshot() == old(Snapshot()).Without(y)
        && !Snapshot().IsAttached(y)
        && deltas == old(deltas) + [ChildDeleted(k.0, k.1, 0, y)]
      ensures old(Snapshot().Slot(k)).Some? && newChild.Some? && old(Snapshot().Slot(k)) != newChild ==>
        var y, x := old(Snapshot().Slot(k)).value, newChild.value;
        && Snapshot() == old(Snapshot()).Without(y).Without(x).PutInSlot(k, x)
        && !Snapshot().IsAttached(y)
        && deltas == old(deltas) + [ChildDeleted(k.0, k.1, 0, y)] + [ChildReplaced(k.0, k.1, 0, y, x)]
    {
      ghost var s := Snapshot();
      var oldChild := SingleGetDirectly(k);
      if oldChild.None? {
        if newChild.Some? {
          SetIntoEmptySlot(k, newChild.value);
        }
      } else {
        var y := oldChild.value;
        BackLinkIff(s, k, y);
        WithoutKeepsConsistent(s, y);
        if newChild.None? {
          Detach(y);
          SingleSetDirectly(k, None);
          EmitDelta(ChildDeleted(k.0, k.1, 0, y));
          assert Snapshot() == s.Without(y);
        } else if y != newChild.value {
          WithoutKeepsConsistent(s.Without(y), newChild.value);
          ReplaceChild(k, y, newChild.value);
        }
      }
      SetLeavesSlot(s, k, newChild);
    }

    // ---------------------------------------------------------------------------
    // RequiredSingleContainmentValueManager

    /** `get()`: fails with `UnsetRequiredRead` exactly when the box is empty. */
    function RequiredSingleGet(k: ManagerKey): (r: Result<NodeId, Error>)
      reads this
      ensures r.Failure? <==> SingleGetDirectly(k).None?
      ensures r.Failure? ==> r.error == UnsetRequiredRead
      ensures Valid() && !k.1.multiple && r.Success? ==> Snapshot().AttachedAt(r.value, k)
    {
      var c := SingleGetDirectly(k);
      if c.None? then Failure(UnsetRequiredRead) else Success(c.value)
    }

    /**
     * `set(newChild)`: like the optional manager's, except that unsetting an occupied
     * box fails with `UnsetRequired` before anything changes.
     */
    method RequiredSingleSet(k: ManagerKey, newChild: Option<NodeId>) returns (r: Outcome<Error>)
      requires Valid() && !k.1.multiple && !k.1.optional
      modifies this
      ensures Valid()
      ensures r.Fail? <==> old(Snapshot().Slot(k)).Some? && newChild.None?
      ensures r.Fail? ==> r.error == UnsetRequired && Snapshot() == old(Snapshot()) && deltas == old(deltas)
      ensures r.Pass? ==> Snapshot().Slot(k) == newChild
      ensures newChild.Some? ==> Snapshot().AttachedAt(newChild.value, k)
      ensures old(Snapshot().Slot(k)) == newChild ==>
        Snapshot() == old(Snapshot()) && deltas == old(deltas)
      ensures old(Snapshot().Slot(k)).None? && newChild.Some? ==>
        var x := newChild.value;
        && Snapshot() == old(Snapshot()).Without(x).PutInSlot(k, x)
        && deltas == old(deltas) + [
             if old(Snapshot().IsAttached(x))
             then ChildMoved(old(parent[x]), old(containment[x]), 0, k.0, k.1, 0, x)
             else ChildAdded(k.0, k.1, 0, x)]
      ensures old(Snapshot().Slot(k)).Some? && newChild.Some? && old(Snapshot().Slot(k)) != newChild ==>
        var y, x := old(Snapshot().Slot(k)).value, newChild.value;
        && Snapshot() == old(Snapshot()).Without(y).Without(x).PutInSlot(k, x)
        && !Snapshot().IsAttached(y)
        && deltas == old(deltas) + [ChildDeleted(k.0, k.1, 0, y)] + [ChildReplaced(k.0, k.1, 0, y, x)]
    {
      ghost var s := Snapshot();
      var oldChild := SingleGetDirectly(k);
      r := Pass;
      if oldChild.None? {
        if newChild.Some? {
          SetIntoEmptySlot(k, newChild.value);
        }
      } else {
        var y := oldChild.value;
        if newChild.None? {
          return Fail(UnsetRequired);
        } else if y != newChild.value {
          ReplaceChild(k, y, newChild.value);
        }
      }
      SetLeavesSlot(s, k, newChild);
    }

    // ---------------------------------------------------------------------------
    // MultiContainmentValueManager

    /** `get()`: a copy of the array; under the invariant, exactly the nodes attached here, each once. */
    function MultiGet(k: ManagerKey): (r: seq<NodeId>)
      reads this
      ensures Valid() && k.1.multiple ==>
        NoDuplicates(r) && forall x: NodeId :: x in r <==> Snapshot().AttachedAt(x, k)
    {
      BackLinkIffAll(Snapshot(), k);
      Snapshot().Children(k)
    }

    /** `isSet()`: the array is non-empty; under the invariant, some node is attached here. */
    function MultiIsSet(k: ManagerKey): (b: bool)
      reads this
      ensures b <==> MultiGet(k) != []
      ensures Valid() && k.1.multiple ==> (b <==> exists x: NodeId :: Snapshot().AttachedAt(x, k))
    {
      var l := MultiGet(k);
      assert Valid() && k.1.multiple && |l| > 0 ==> Snapshot().AttachedAt(l[0], k);
      |l| > 0
    }

    /** `addDirectly(newChild)`: appended to the array; nothing else changes. */
    method MultiAddDirectly(k: ManagerKey, newChild: NodeId)
      requires k.1.multiple
      modifies this
      ensures Snapshot() == old(Snapshot()).WithChildren(k, old(Snapshot().Children(k)) + [newChild])
      ensures deltas == old(deltas)
    {
      children := children[k := Snapshot().Children(k) + [newChild]];
    }

    /**
     * `insertAtIndexDirectly(newChild, index)`: inserted at `index` when
     * `0 <= index <= length`, otherwise fails changing nothing; nothing else changes.
     */
    method MultiInsertAtIndexDirectly(k: ManagerKey, newChild: NodeId, index: int) returns (r: Outcome<Error>)
      requires k.1.multiple
      modifies this
      ensures r == CheckIndex(index, |old(Snapshot().Children(k))|, true)
      ensures r.Fail? ==> Snapshot() == old(Snapshot())
      ensures r.Pass? ==>
        Snapshot() == old(Snapshot()).WithChildren(k, InsertAt(old(Snapshot().Children(k)), index, newChild))
      ensures deltas == old(deltas)
    {
      r := CheckIndex(index, |Snapshot().Children(k)|, true);
      if r.Fail? {
        return;
      }
      children := children[k := InsertAt(Snapshot().Children(k), index, newChild)];
    }

    /**
     * `insertAtIndex(newChild, index)`: fails, changing nothing, unless
     * `0 <= index <= length`. Otherwise the child ends at `index` of this array, attached
     * here, after being taken out of its old manager; one `ChildAdded` is emitted for an
     * unattached child, one `ChildMoved` carrying the old index for an attached one.
     */
    method MultiInsertAtIndex(k: ManagerKey, newChild: NodeId, index: int) returns (r: Outcome<Error>)
      requires Valid() && k.1.multiple && !Snapshot().AttachedAt(newChild, k)
      modifies this
      ensures Valid()
      ensures r == CheckIndex(index, |old(Snapshot().Children(k))|, true)
      ensures r.Fail? ==> Snapshot() == old(Snapshot()) && deltas == old(deltas)
      ensures r.Pass? ==> Snapshot() == old(Snapshot()).Without(newChild).InsertedAt(k, index, newChild)
      ensures r.Pass? ==> Snapshot().Children(k) == InsertAt(old(Snapshot().Children(k)), index, newChild)
      ensures r.Pass? ==> Snapshot().AttachedAt(newChild, k)
      ensures r.Pass? && !old(Snapshot().IsAttached(newChild)) ==>
        deltas == old(deltas) + [ChildAdded(k.0, k.1, index, newChild)]
      ensures r.Pass? && old(Snapshot().IsAttached(newChild)) ==>
        deltas == old(deltas) + [ChildMoved(old(parent[newChild]), old(containment[newChild]),
                                            old(Snapshot().IndexIn(Snapshot().Home(newChild), newChild)),
                                            k.0, k.1, index, newChild)]
    {
      ghost var s := Snapshot();
      r := MultiInsertAtIndexDirectly(k, newChild, index);
      if r.Fail? {
        return;
      }
      InsertKeepsConsistent(s, k, index, newChild);
      if newChild !in parent && newChild !in containment {
        EmitDelta(ChildAdded(k.0, k.1, index, newChild));
      } else {
        var oldIndex := RemoveFromParent(parent[newChild], newChild);
        EmitDelta(ChildMoved(parent[newChild], containment[newChild], oldIndex, k.0, k.1, index, newChild));
        Detach(newChild);
      }
      AttachTo(newChild, k);
      assert Snapshot() == InsertedInOrder(s, k, index, newChild);
    }

    /** `add(newChild)`: `insertAtIndex(newChild, length)`, which cannot fail. */
    method MultiAdd(k: ManagerKey, newChild: NodeId)
      requires Valid() && k.1.multiple && !Snapshot().AttachedAt(newChild, k)
      modifies this
      ensures Valid()
      ensures Snapshot().Children(k) == old(Snapshot().Children(k)) + [newChild]
      ensures Snapshot() == old(Snapshot()).Without(newChild).InsertedAt(k, |old(Snapshot().Children(k))|, newChild)
      ensures !old(Snapshot().IsAttached(newChild)) ==>
        deltas == old(deltas) + [ChildAdded(k.0, k.1, |old(Snapshot().Children(k))|, newChild)]
      ensures old(Snapshot().IsAttached(newChild)) ==>
        deltas == old(deltas) + [ChildMoved(old(parent[newChild]), old(containment[newChild]),
                                            old(Snapshot().IndexIn(Snapshot().Home(newChild), newChild)),
                                            k.0, k.1, |old(Snapshot().Children(k))|, newChild)]
    {
      ghost var l := Snapshot().Children(k);
      var r := MultiInsertAtIndex(k, newChild, |Snapshot().Children(k)|);
      assert InsertAt(l, |l|, newChild) == l + [newChild];
    }

    /** `removeDirectly(x)`: the first occurrence of `x` spliced out and its index returned, or -1. */
    method MultiRemoveDirectly(k: ManagerKey, x: NodeId) returns (index: int)
      requires k.1.multiple
      modifies this
      ensures index == FindIndex(old(Snapshot().Children(k)), x)
      ensures index == -1 ==> Snapshot() == old(Snapshot())
      ensures index >= 0 ==>
        Snapshot() == old(Snapshot()).WithChildren(k, RemoveAt(old(Snapshot().Children(k)), index))
      ensures deltas == old(deltas)
    {
      var l := Snapshot().Children(k);
      index := FindIndex(l, x);
      if index > -1 {
        children := children[k := RemoveAt(l, index)];
      }
    }

    /**
     * `moveDirectly(oldIndex, newIndex)`: fails unless both indices are in range;
     * otherwise, for different indices, the element at `oldIndex` is moved to
     * `newIndex` and returned; for equal ones nothing changes.
     */
    method MultiMoveDirectly(k: ManagerKey, oldIndex: int, newIndex: int) returns (r: Result<Option<NodeId>, Error>)
      requires k.1.multiple
      modifies this
      ensures var n := |old(Snapshot().Children(k))|;
        r.Failure? <==> !(0 <= oldIndex < n && 0 <= newIndex < n)
      ensures r.Failure? ==> r.error == IndexOutOfBounds && Snapshot() == old(Snapshot())
      ensures r.Success? && oldIndex == newIndex ==> r.value == None && Snapshot() == old(Snapshot())
      ensures r.Success? && oldIndex != newIndex ==>
        var l := old(Snapshot().Children(k));
        r.value == Some(l[oldIndex]) && Snapshot() == old(Snapshot()).WithChildren(k, Moved(l, oldIndex, newIndex))
      ensures deltas == old(deltas)
    {
      var l := Snapshot().Children(k);
      var check := CheckIndex(oldIndex, |l|, false);
      if check.Fail? {
        return Failure(check.error);
      }
      check := CheckIndex(newIndex, |l|, false);
      if check.Fail? {
        return Failure(check.error);
      }
      if oldIndex != newIndex {
        children := children[k := Moved(l, oldIndex, newIndex)];
        return Success(Some(l[oldIndex]));
      }
      r := Success(None);
    }

    /**
     * `move(oldIndex, newIndex)`: fails, changing nothing, unless both indices are in range;
     * equal indices change nothing and emit nothing; otherwise the element is moved and one
     * `ChildMovedInSameContainment` is emitted. Back-links do not change.
     */
    method MultiMove(k: ManagerKey, oldIndex: int, newIndex: int) returns (r: Outcome<Error>)
      requires Valid() && k.1.multiple
      modifies this
      ensures Valid()
      ensures var n := |old(Snapshot().Children(k))|;
        r.Fail? <==> !(0 <= oldIndex < n && 0 <= newIndex < n)
      ensures r.Fail? ==> r.error == IndexOutOfBounds
      ensures r.Fail? || oldIndex == newIndex ==> Snapshot() == old(Snapshot()) && deltas == old(deltas)
      ensures r.Pass? && oldIndex != newIndex ==>
        var l := old(Snapshot().Children(k));
        && Snapshot() == old(Snapshot()).WithChildren(k, Moved(l, oldIndex, newIndex))
        && deltas == old(deltas) + [ChildMovedInSameContainment(k.0, k.1, oldIndex, newIndex, l[oldIndex])]
    {
      ghost var s := Snapshot();
      var moved := MultiMoveDirectly(k, oldIndex, newIndex);
      if moved.Failure? {
        return Fail(moved.error);
      }
      if moved.value.Some? {
        EmitDelta(ChildMovedInSameContainment(k.0, k.1, oldIndex, newIndex, moved.value.value));
        MovedKeepsConsistent(s, k, oldIndex, newIndex);
      }
      r := Pass;
    }

    // ---------------------------------------------------------------------------
    // OptionalMultiContainmentValueManager

    /**
     * `remove(x)`: nothing happens when `x` is not in the array; otherwise `x` is spliced
     * out at its index, detached, and one `ChildDeleted` with that index is emitted.
     */
    method OptionalMultiRemove(k: ManagerKey, x: NodeId)
      requires Valid() && k.1.multiple && k.1.optional
      modifies this
      ensures Valid()
      ensures x !in old(Snapshot().Children(k)) ==> Snapshot() == old(Snapshot()) && deltas == old(deltas)
      ensures x in old(Snapshot().Children(k)) ==>
        var l := old(Snapshot().Children(k));
        && Snapshot() == old(Snapshot()).Without(x)
        && Snapshot().Children(k) == RemoveAt(l, FindIndex(l, x))
        && !Snapshot().IsAttached(x)
        && deltas == old(deltas) + [ChildDeleted(k.0, k.1, FindIndex(l, x), x)]
    {
      ghost var s := Snapshot();
      var l := Snapshot().Children(k);
      var index := FindIndex(l, x);
      if index > -1 {
        RemoveChildAt(k, x, index);
      }
    }

    /** The shared tail of both `remove`s: splice out, detach, emit `ChildDeleted`. */
    method RemoveChildAt(k: ManagerKey, x: NodeId, index: int)
      requires Valid() && k.1.multiple && x in Snapshot().Children(k)
      requires index == FindIndex(Snapshot().Children(k), x)
      modifies this
      ensures Valid()
      ensures Snapshot() == old(Snapshot()).Without(x)
      ensures Snapshot().Children(k) == RemoveAt(old(Snapshot().Children(k)), index)
      ensures !Snapshot().IsAttached(x)
      ensures deltas == old(deltas) + [ChildDeleted(k.0, k.1, index, x)]
    {
      ghost var s := Snapshot();
      var l := Snapshot().Children(k);
      BackLinkIff(s, k, x);
      WithoutKeepsConsistent(s, x);
      children := children[k := RemoveAt(l, index)];
      Detach(x);
      EmitDelta(ChildDeleted(k.0, k.1, index, x));
      assert Snapshot() == s.Without(x);
    }

    // ---------------------------------------------------------------------------
    // RequiredMultiContainmentValueManager

    /** `get()`: fails with `UnsetRequiredRead` exactly when the array is empty. */
    function RequiredMultiGet(k: ManagerKey): (r: Result<seq<NodeId>, Error>)
      reads this
      ensures r.Failure? <==> MultiGet(k) == []
      ensures r.Failure? ==> r.error == UnsetRequiredRead
      ensures r.Success? ==> r.value == MultiGet(k)
    {
      var l := MultiGet(k);
      if |l| == 0 then Failure(UnsetRequiredRead) else Success(l)
    }

    /**
     * `remove(x)`: like the optional manager's, except that removing the only element
     * fails with `UnsetRequired` before anything changes.
     */
    method RequiredMultiRemove(k: ManagerKey, x: NodeId) returns (r: Outcome<Error>)
      requires Valid() && k.1.multiple && !k.1.optional
      modifies this
      ensures Valid()
      ensures r.Fail? <==> x in old(Snapshot().Children(k)) && |old(Snapshot().Children(k))| == 1
      ensures r.Fail? ==> r.error == UnsetRequired
      ensures r.Fail? || x !in old(Snapshot().Children(k)) ==>
        Snapshot() == old(Snapshot()) && deltas == old(deltas)
      ensures r.Pass? && x in old(Snapshot().Children(k)) ==>
        var l := old(Snapshot().Children(k));
        && Snapshot() == old(Snapshot()).Without(x)
        && Snapshot().Children(k) == RemoveAt(l, FindIndex(l, x))
        && !Snapshot().IsAttached(x)
        && deltas == old(deltas) + [ChildDeleted(k.0, k.1, FindIndex(l, x), x)]
    {
      var l := Snapshot().Children(k);
      var index := FindIndex(l, x);
      r := Pass;
      if index > -1 {
        if |l| == 1 {
          return Fail(UnsetRequired);
        }
        RemoveChildAt(k, x, index);
      }
    }
  }
}
