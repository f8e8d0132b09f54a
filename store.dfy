/**
 * The containment part of a node graph as a value: every node's back-link to its
 * parent and containing feature, and the storage of every containment value
 * manager, together with the ownership invariant that ties the two together.
 */
module ContainmentStore {
  import opened Wrappers
  import opened Splices
  import opened Deltas

  /** A containment value manager is identified by its container and its feature. */
  type ManagerKey = (NodeId, Containment)

  /**
   * `parent` and `containment` are the nodes' back-links (a node missing from a map
   * has that field `undefined`); `child` holds the single-valued managers' boxes
   * (a missing key is an empty box) and `children` the multi-valued managers'
   * arrays (a missing key is an empty array).
   */
  datatype Store = Store(
    parent: map<NodeId, NodeId>,
    containment: map<NodeId, Containment>,
    child: map<ManagerKey, NodeId>,
    children: map<ManagerKey, seq<NodeId>>)
  {
    /** The content of a single-valued manager's box. */
    function Slot(k: ManagerKey): Option<NodeId> {
      if k in child then Some(child[k]) else None
    }

    /** The content of a multi-valued manager's array. */
    function Children(k: ManagerKey): seq<NodeId> {
      if k in children then children[k] else []
    }

    /** Both back-links of `x` are set. */
    predicate IsAttached(x: NodeId) {
      x in parent && x in containment
    }

    /** The manager that the back-links of an attached node point at. */
    function Home(x: NodeId): ManagerKey
      requires IsAttached(x)
    {
      (parent[x], containment[x])
    }

    /** `x.parent` is the container of `k` and `x.containment` is its feature. */
    predicate AttachedAt(x: NodeId, k: ManagerKey) {
      IsAttached(x) && Home(x) == k
    }

    /** The manager `k` holds `x`, in its box or in its array according to its feature. */
    predicate Holds(k: ManagerKey, x: NodeId) {
      if k.1.multiple then x in Children(k) else Slot(k) == Some(x)
    }

    /**
     * The ownership invariant: both back-links are set or both unset; boxes belong to
     * single-valued features and arrays to multi-valued ones; no array holds a node
     * twice; every held node's back-links point at the manager holding it; and every
     * attached node is held by the manager its back-links point at.
     */
    ghost predicate Consistent() {
      && parent.Keys == containment.Keys
      && (forall k | k in child :: !k.1.multiple && AttachedAt(child[k], k))
      && (forall k | k in children :: k.1.multiple && NoDuplicates(children[k]))
      && (forall k, i | k in children && 0 <= i < |children[k]| :: AttachedAt(children[k][i], k))
      && (forall x | x in parent :: IsAttached(x) && Holds(Home(x), x))
    }

    /** `attachTo`: both back-links of `x` set to `k`. */
    function Link(x: NodeId, k: ManagerKey): Store {
      this.(parent := parent[x := k.0], containment := containment[x := k.1])
    }

    /** `detach`: both back-links of `x` cleared. */
    function Unlink(x: NodeId): Store {
      this.(parent := parent - {x}, containment := containment - {x})
    }

    /** `setDirectly`: the box of `k` overwritten. */
    function WithSlot(k: ManagerKey, o: Option<NodeId>): Store {
      this.(child := if o.Some? then child[k := o.value] else child - {k})
    }

    /** The array of `k` replaced. */
    function WithChildren(k: ManagerKey, l: seq<NodeId>): Store {
      this.(children := children[k := l])
    }

    /**
     * The storage effect of `removeFromParent` on the manager `k`: an array loses
     * the first occurrence of `x` (if any), a box is emptied.
     */
    function TakenOut(k: ManagerKey, x: NodeId): Store {
      if k.1.multiple then
        var i := FindIndex(Children(k), x);
        if i >= 0 then WithChildren(k, RemoveAt(Children(k), i)) else this
      else
        WithSlot(k, None)
    }

    /** The index `removeFromParent` returns: the position in an array, 0 for a box. */
    function IndexIn(k: ManagerKey, x: NodeId): int {
      if k.1.multiple then FindIndex(Children(k), x) else 0
    }

    /** `x` taken out of the manager its back-links point at, and detached. */
    function Without(x: NodeId): Store {
      if IsAttached(x) then TakenOut(Home(x), x).Unlink(x) else this
    }

    /** `x` installed in the box of `k` and attached there. */
    function PutInSlot(k: ManagerKey, x: NodeId): Store {
      WithSlot(k, Some(x)).Link(x, k)
    }

    /** `x` inserted at position `i` of the array of `k` and attached there. */
    function InsertedAt(k: ManagerKey, i: nat, x: NodeId): Store {
      if i <= |Children(k)| then WithChildren(k, InsertAt(Children(k), i, x)).Link(x, k) else this
    }
  }

  /** The graph with no attached node and only empty managers. */
  const Empty := Store(map[], map[], map[], map[])

  lemma EmptyIsConsistent()
    ensures Empty.Consistent()
  {
  }

  /**
   * The ownership invariant read both ways: `x.parent = P` and `x.containment = F`
   * exactly when the manager of `F` on `P` holds `x`.
   */
  lemma BackLinkIff(s: Store, k: ManagerKey, x: NodeId)
    requires s.Consistent()
    ensures s.AttachedAt(x, k) <==> s.Holds(k, x)
  {
    if s.Holds(k, x) && k.1.multiple {
      var i :| 0 <= i < |s.Children(k)| && s.Children(k)[i] == x;
    }
  }

  /** `BackLinkIff` for every node at once. */
  lemma BackLinkIffAll(s: Store, k: ManagerKey)
    ensures s.Consistent() ==> forall x :: s.AttachedAt(x, k) <==> s.Holds(k, x)
  {
    if s.Consistent() {
      forall x ensures s.AttachedAt(x, k) <==> s.Holds(k, x) {
        BackLinkIff(s, k, x);
      }
    }
  }

  /** A node is held by at most one manager, and at most once in an array. */
  lemma SingleOwner(s: Store, k1: ManagerKey, k2: ManagerKey, x: NodeId)
    requires s.Consistent() && s.Holds(k1, x) && s.Holds(k2, x)
    ensures k1 == k2
    ensures k1.1.multiple ==> forall i | 0 <= i < |s.Children(k1)| && s.Children(k1)[i] == x ::
                                i == FindIndex(s.Children(k1), x)
  {
    BackLinkIff(s, k1, x);
    BackLinkIff(s, k2, x);
    if k1.1.multiple {
      forall i | 0 <= i < |s.Children(k1)| && s.Children(k1)[i] == x
        ensures i == FindIndex(s.Children(k1), x)
      {
        FindIndexUnique(s.Children(k1), i);
      }
    }
  }

  /**
   * Taking an attached node out of its manager and detaching it keeps the invariant,
   * leaves the node held nowhere, and changes no other manager and no other node.
   */
  lemma WithoutKeepsConsistent(s: Store, x: NodeId)
    requires s.Consistent()
    ensures var t := s.Without(x);
      && t.Consistent()
      && !t.IsAttached(x)
      && (forall k :: !t.Holds(k, x))
      && (forall y | y != x :: t.IsAttached(y) == s.IsAttached(y))
      && (forall y | y != x && s.IsAttached(y) :: t.Home(y) == s.Home(y))
      && (forall k | !s.IsAttached(x) || k != s.Home(x) ::
            t.Slot(k) == s.Slot(k) && t.Children(k) == s.Children(k))
  {
    var t := s.Without(x);
    if s.IsAttached(x) {
      var h := s.Home(x);
      if h.1.multiple {
        TakeOutOfArray(s, x);
      } else {
        TakeOutOfBox(s, x);
      }
    }
    forall k ensures !t.Holds(k, x) {
      BackLinkIff(t, k, x);
    }
    WithoutFrame(s, x);
  }

  /** `Without(x)` touches only the manager `x` was in, and only the back-links of `x`. */
  lemma WithoutFrame(s: Store, x: NodeId)
    ensures var t := s.Without(x);
      && (forall y | y != x :: t.IsAttached(y) == s.IsAttached(y))
      && (forall y | y != x && s.IsAttached(y) :: t.Home(y) == s.Home(y))
      && (forall k | !s.IsAttached(x) || k != s.Home(x) ::
            t.Slot(k) == s.Slot(k) && t.Children(k) == s.Children(k))
  {
    var t := s.Without(x);
    forall k | !s.IsAttached(x) || k != s.Home(x)
      ensures t.Slot(k) == s.Slot(k) && t.Children(k) == s.Children(k)
    {
      if s.IsAttached(x) {
        var h := s.Home(x);
        if h.1.multiple {
          assert t.child == s.child;
          var i := FindIndex(s.Children(h), x);
          if i >= 0 {
            assert t.children == s.children[h := RemoveAt(s.Children(h), i)];
          }
        } else {
          assert t.child == s.child - {h};
          assert t.children == s.children;
        }
      }
    }
  }

  lemma TakeOutOfArray(s: Store, x: NodeId)
    requires s.Consistent() && s.IsAttached(x) && s.Home(x).1.multiple
    ensures s.Without(x).Consistent()
  {
    TakeOutOfArrayArrays(s, x);
    TakeOutOfArrayRest(s, x);
  }

  /** The boxes and back-links part of `TakeOutOfArray`. */
  lemma TakeOutOfArrayRest(s: Store, x: NodeId)
    requires s.Consistent() && s.IsAttached(x) && s.Home(x).1.multiple
    ensures var t := s.Without(x);
      && t.parent.Keys == t.containment.Keys
      && (forall k | k in t.child :: !k.1.multiple && t.AttachedAt(t.child[k], k))
      && (forall y | y in t.parent :: t.IsAttached(y) && t.Holds(t.Home(y), y))
  {
    var h := s.Home(x);
    var l := s.Children(h);
    assert s.Holds(h, x);
    var i := FindIndex(l, x);
    RemoveAtContents(l, i);
    var t := s.Without(x);
    assert t == s.WithChildren(h, RemoveAt(l, i)).Unlink(x);
    assert t.child == s.child;
    forall k | k in t.child ensures !k.1.multiple && t.AttachedAt(t.child[k], k) {
      assert s.AttachedAt(s.child[k], k);
    }
    forall y | y in t.parent ensures t.IsAttached(y) && t.Holds(t.Home(y), y) {
      assert s.Holds(s.Home(y), y);
    }
  }

  /** The arrays part of `TakeOutOfArray`: still duplicate-free, every element still attached there. */
  lemma TakeOutOfArrayArrays(s: Store, x: NodeId)
    requires s.Consistent() && s.IsAttached(x) && s.Home(x).1.multiple
    ensures var t := s.Without(x);
      && (forall k | k in t.children :: k.1.multiple && NoDuplicates(t.children[k]))
      && (forall k, j | k in t.children && 0 <= j < |t.children[k]| :: t.AttachedAt(t.children[k][j], k))
  {
    var h := s.Home(x);
    var l := s.Children(h);
    assert s.Holds(h, x);
    var i := FindIndex(l, x);
    assert h in s.children;
    RemoveAtNoDuplicates(l, i);
    RemoveAtContents(l, i);
    var t := s.Without(x);
    assert t == s.WithChildren(h, RemoveAt(l, i)).Unlink(x);
    forall k, j | k in t.children && 0 <= j < |t.children[k]|
      ensures t.AttachedAt(t.children[k][j], k)
    {
      if k == h {
        var j' := if j < i then j else j + 1;
        assert t.children[k][j] == l[j'];
        assert s.AttachedAt(l[j'], k);
      } else {
        assert s.AttachedAt(s.children[k][j], k);
      }
    }
  }

  lemma TakeOutOfBox(s: Store, x: NodeId)
    requires s.Consistent() && s.IsAttached(x) && !s.Home(x).1.multiple
    ensures s.Without(x).Consistent()
  {
    var h := s.Home(x);
    assert s.Holds(h, x);
    var t := s.Without(x);
    forall k, j | k in t.children && 0 <= j < |t.children[k]|
      ensures t.AttachedAt(t.children[k][j], k)
    {
      assert s.AttachedAt(s.children[k][j], k);
    }
    forall y | y in t.parent ensures t.IsAttached(y) && t.Holds(t.Home(y), y) {
      assert s.Holds(s.Home(y), y);
    }
  }

  /**
   * Installing a detached node in an empty box of a single-valued feature and
   * attaching it there keeps the invariant.
   */
  lemma PutInSlotKeepsConsistent(s: Store, k: ManagerKey, x: NodeId)
    requires s.Consistent() && !k.1.multiple && s.Slot(k) == None && !s.IsAttached(x)
    ensures s.PutInSlot(k, x).Consistent()
  {
    var t := s.PutInSlot(k, x);
    forall k' | k' in t.child ensures !k'.1.multiple && t.AttachedAt(t.child[k'], k') {
      if k' != k {
        assert s.AttachedAt(s.child[k'], k');
      }
    }
    forall k', j | k' in t.children && 0 <= j < |t.children[k']|
      ensures t.AttachedAt(t.children[k'][j], k')
    {
      assert s.AttachedAt(s.children[k'][j], k');
    }
    PutInSlotHeld(s, k, x);
  }

  /** The back-links part of `PutInSlotKeepsConsistent`: every attached node is held where it points. */
  lemma PutInSlotHeld(s: Store, k: ManagerKey, x: NodeId)
    requires s.Consistent() && !k.1.multiple && s.Slot(k) == None && !s.IsAttached(x)
    ensures var t := s.PutInSlot(k, x);
      forall y | y in t.parent :: t.IsAttached(y) && t.Holds(t.Home(y), y)
  {
    var t := s.PutInSlot(k, x);
    forall y | y in t.parent ensures t.IsAttached(y) && t.Holds(t.Home(y), y) {
      if y != x {
        assert s.Holds(s.Home(y), y);
      }
    }
  }

  /**
   * Inserting a detached node into the array of a multi-valued feature and
   * attaching it there keeps the invariant.
   */
  lemma InsertedAtKeepsConsistent(s: Store, k: ManagerKey, i: nat, x: NodeId)
    requires s.Consistent() && k.1.multiple && i <= |s.Children(k)| && !s.IsAttached(x)
    ensures s.InsertedAt(k, i, x).Consistent()
  {
    var l := s.Children(k);
    var t := s.InsertedAt(k, i, x);
    assert t == s.WithChildren(k, InsertAt(l, i, x)).Link(x, k);
    InsertAtNoDuplicates(l, i, x);
    forall k' | k' in t.child ensures !k'.1.multiple && t.AttachedAt(t.child[k'], k') {
      assert s.AttachedAt(s.child[k'], k');
    }
    InsertedAtOccupants(s, k, i, x);
    forall y | y in t.parent ensures t.IsAttached(y) && t.Holds(t.Home(y), y) {
      if y != x {
        assert s.Holds(s.Home(y), y);
      }
    }
  }

  lemma InsertedAtOccupants(s: Store, k: ManagerKey, i: nat, x: NodeId)
    requires s.Consistent() && i <= |s.Children(k)| && !s.IsAttached(x)
    ensures var t := s.InsertedAt(k, i, x);
      forall k', j | k' in t.children && 0 <= j < |t.children[k']| ::
        t.AttachedAt(t.children[k'][j], k')
  {
    var l := s.Children(k);
    var t := s.InsertedAt(k, i, x);
    assert t == s.WithChildren(k, InsertAt(l, i, x)).Link(x, k);
    InsertAtContents(l, i, x);
    forall k', j | k' in t.children && 0 <= j < |t.children[k']|
      ensures t.AttachedAt(t.children[k'][j], k')
    {
      if k' == k {
        if j < i {
          assert s.AttachedAt(s.children[k][j], k);
        } else if j > i {
          assert s.AttachedAt(s.children[k][j - 1], k);
        }
      } else {
        assert s.AttachedAt(s.children[k'][j], k');
      }
    }
  }

  /** Moving an element of an array to another position keeps the invariant. */
  lemma MovedKeepsConsistent(s: Store, k: ManagerKey, o: nat, n: nat)
    requires s.Consistent() && o < |s.Children(k)| && n < |s.Children(k)|
    ensures s.WithChildren(k, Moved(s.Children(k), o, n)).Consistent()
  {
    var l := s.Children(k);
    var t := s.WithChildren(k, Moved(l, o, n));
    assert k in s.children;
    MovedNoDuplicates(l, o, n);
    forall k', j | k' in t.children && 0 <= j < |t.children[k']|
      ensures t.AttachedAt(t.children[k'][j], k')
    {
      if k' == k {
        var y := t.children[k][j];
        assert y in l;
        var j' :| 0 <= j' < |l| && l[j'] == y;
        assert s.AttachedAt(s.children[k][j'], k);
      } else {
        assert s.AttachedAt(s.children[k'][j], k');
      }
    }
    forall y | y in t.parent ensures t.IsAttached(y) && t.Holds(t.Home(y), y) {
      assert s.Holds(s.Home(y), y);
    }
  }

  /** The box and back-links that `set(newChild)` leaves behind. */
  lemma SetLeavesSlot(s: Store, k: ManagerKey, newChild: Option<NodeId>)
    requires s.Consistent() && !k.1.multiple
    ensures newChild.None? && s.Slot(k).Some? ==>
      s.Without(s.Slot(k).value).Slot(k) == None
    ensures newChild.Some? && s.Slot(k).None? ==>
      var t := s.Without(newChild.value).PutInSlot(k, newChild.value);
      t.Slot(k) == newChild && t.AttachedAt(newChild.value, k)
    ensures newChild.Some? && s.Slot(k).Some? && s.Slot(k) != newChild ==>
      var t := s.Without(s.Slot(k).value).Without(newChild.value).PutInSlot(k, newChild.value);
      t.Slot(k) == newChild && t.AttachedAt(newChild.value, k) && !t.IsAttached(s.Slot(k).value)
  {
    if s.Slot(k).Some? {
      var y := s.Slot(k).value;
      BackLinkIff(s, k, y);
      WithoutKeepsConsistent(s, y);
      if newChild.Some? && newChild.value != y {
        WithoutKeepsConsistent(s.Without(y), newChild.value);
      }
    }
  }

  // Equalities between orders of the same storage updates.

  /** Attaching overrides an earlier detach of the same node. */
  lemma UnlinkThenPut(a: Store, k: ManagerKey, x: NodeId)
    ensures a.Unlink(x).PutInSlot(k, x) == a.PutInSlot(k, x)
  {
    assert (a.parent - {x})[x := k.0] == a.parent[x := k.0];
    assert (a.containment - {x})[x := k.1] == a.containment[x := k.1];
  }

  /** Filling a box overrides emptying it first. */
  lemma EmptiedThenPut(a: Store, k: ManagerKey, x: NodeId)
    ensures a.WithSlot(k, None).PutInSlot(k, x) == a.PutInSlot(k, x)
  {
    assert (a.child - {k})[k := x] == a.child[k := x];
  }

  /** Taking a node out of another manager commutes with emptying the box of `k`. */
  lemma TakenOutElsewhere(a: Store, k: ManagerKey, h: ManagerKey, x: NodeId)
    requires h != k && !k.1.multiple
    ensures a.WithSlot(k, None).TakenOut(h, x) == a.TakenOut(h, x).WithSlot(k, None)
  {
    if !h.1.multiple {
      assert (a.child - {k}) - {h} == (a.child - {h}) - {k};
    }
  }

  /** A replacement of `y` by `x` in the box of `k`, in the order the manager performs its steps. */
  function ReplacedInOrder(s: Store, k: ManagerKey, y: NodeId, x: NodeId): Store {
    var t := s.Unlink(y);
    var u := if s.IsAttached(x) then t.TakenOut(s.Home(x), x) else t;
    u.PutInSlot(k, x)
  }

  /**
   * Done in that order, a replacement reaches the state "both nodes taken out, then
   * `x` put in the box", and so keeps the invariant.
   */
  lemma ReplaceKeepsConsistent(s: Store, k: ManagerKey, y: NodeId, x: NodeId)
    requires s.Consistent() && !k.1.multiple && s.Slot(k) == Some(y) && x != y
    ensures ReplacedInOrder(s, k, y, x) == s.Without(y).Without(x).PutInSlot(k, x)
    ensures ReplacedInOrder(s, k, y, x).Consistent()
  {
    BackLinkIff(s, k, y);
    WithoutKeepsConsistent(s, y);
    var s1 := s.Without(y);
    WithoutKeepsConsistent(s1, x);
    var s2 := s1.Without(x);
    var t := s.Unlink(y);
    assert s1 == t.WithSlot(k, None);
    if s.IsAttached(x) {
      BackLinkIff(s, k, x);
      var h := s.Home(x);
      TakenOutElsewhere(t, k, h, x);
      assert s2 == t.TakenOut(h, x).WithSlot(k, None).Unlink(x);
      UnlinkThenPut(t.TakenOut(h, x).WithSlot(k, None), k, x);
      EmptiedThenPut(t.TakenOut(h, x), k, x);
    } else {
      assert s2 == t.WithSlot(k, None);
      EmptiedThenPut(t, k, x);
    }
    PutInSlotKeepsConsistent(s2, k, x);
  }

  /**
   * An `insertAtIndex` of `x` at `i` of the array of `k`, in the order the manager
   * performs its steps: insert, take `x` out of its old manager and detach it, attach.
   */
  function InsertedInOrder(s: Store, k: ManagerKey, i: nat, x: NodeId): Store
    requires i <= |s.Children(k)|
  {
    var t := s.WithChildren(k, InsertAt(s.Children(k), i, x));
    var u := if s.IsAttached(x) then t.TakenOut(s.Home(x), x).Unlink(x) else t;
    u.Link(x, k)
  }

  /**
   * Done in that order, an insertion of a node not yet in this array reaches the state
   * "`x` taken out, then inserted", keeps the invariant, and finds `x` in its old
   * manager at the index it had before the insertion.
   */
  lemma InsertKeepsConsistent(s: Store, k: ManagerKey, i: nat, x: NodeId)
    requires s.Consistent() && k.1.multiple && !s.AttachedAt(x, k) && i <= |s.Children(k)|
    ensures InsertedInOrder(s, k, i, x) == s.Without(x).InsertedAt(k, i, x)
    ensures s.IsAttached(x) ==>
      s.WithChildren(k, InsertAt(s.Children(k), i, x)).IndexIn(s.Home(x), x) == s.IndexIn(s.Home(x), x)
    ensures s.Without(x).InsertedAt(k, i, x).Consistent()
  {
    InsertedInOrderEquals(s, k, i, x);
    WithoutKeepsConsistent(s, x);
    InsertedAtKeepsConsistent(s.Without(x), k, i, x);
  }

  /** The order part of `InsertKeepsConsistent`, which does not depend on the invariant. */
  lemma InsertedInOrderEquals(s: Store, k: ManagerKey, i: nat, x: NodeId)
    requires !s.AttachedAt(x, k) && i <= |s.Children(k)|
    ensures InsertedInOrder(s, k, i, x) == s.Without(x).InsertedAt(k, i, x)
    ensures s.IsAttached(x) ==>
      s.WithChildren(k, InsertAt(s.Children(k), i, x)).IndexIn(s.Home(x), x) == s.IndexIn(s.Home(x), x)
    ensures s.Without(x).Children(k) == s.Children(k)
  {
    var w := s.Without(x);
    var l' := InsertAt(s.Children(k), i, x);
    var t := s.WithChildren(k, l');
    if s.IsAttached(x) {
      var h := s.Home(x);
      assert h != k;
      assert t.TakenOut(h, x) == s.TakenOut(h, x).WithChildren(k, l');
      assert w == s.TakenOut(h, x).Unlink(x);
      assert t.TakenOut(h, x).Unlink(x) == w.WithChildren(k, l');
    }
  }
}
