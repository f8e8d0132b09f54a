# Containment value managers and language-reference validation, in Dafny

This project models two parts of the LionWeb TypeScript implementation.

**Containment value managers** (`packages/class-core/src/value-managers/containments.ts`).
A node's containment feature is managed by one value manager. It is either a single-valued
*box* or a multi-valued *array*, and optional or required. Every node carries two back-links,
`parent` and `containment`, which the managers keep pointing at the manager that holds it.
Setting, inserting, moving and removing children changes the box or array and the back-links,
and emits a *delta*: `ChildAdded`, `ChildDeleted`, `ChildReplaced`, `ChildMoved` or
`ChildMovedInSameContainment`.

The model is one arena class, `Containments.Graph`:
- the maps `parent` and `containment` hold the back-links of every node;
- the maps `child` (boxes) and `children` (arrays) are keyed by manager `(container, feature)`;
- `deltas` is one log of the deltas every manager emits. In the code each node is created with
  its own optional delta handler; the model merges them into one log, as the unit tests do by
  passing one collecting handler to every node they create.

`ContainmentStore.Store` is a value snapshot of those four maps. Its invariant
`Store.Consistent` is the ownership property the managers maintain:
- both back-links of a node are set, or neither is;
- boxes belong to single-valued features and arrays to multi-valued ones;
- no array holds a node twice;
- every held node's back-links point at the manager that holds it, and every attached node is
  held there.

Every operation that emits deltas requires and re-establishes this invariant (`Graph.Valid`).
Its `ensures` states the new snapshot as a composition of store transitions (`Without`,
`PutInSlot`, `InsertedAt`, …) and states the exact deltas appended. The unit tests of the
required single-valued containment `containment_1` are replayed as methods in
`ContainmentScenarios`.

**Language-reference validator**
(`packages/validation/src/validators/LionWebLanguageReferenceValidator.ts`). It checks each
node of a serialization chunk against a language definition. Each concept, property,
containment and reference meta-pointer is looked up, and an issue is reported when:
- the meta-pointer is unknown;
- the definition found is of the wrong metaconcept;
- for properties, the type is Boolean, Integer or JSON, in which case the value is handed to
  a value check.

The class `LanguageReferenceValidator` does this with loops that append to its issue list.
Pure functions (`PropertyRun`, `NodeRun`, `ChunkRun`, …) give the issues and the outcome that
a validation produces, and the lemmas prove properties of them:
- when no error is thrown, each node's issues are exactly those of that node alone;
- issues come out in document order;
- the full case analysis of each check holds in both directions;
- a thrown error stops the run.

Files: `wrappers.dfy` (Option, Result, Outcome), `splices.dfy` (array splices and
`findIndex`), `deltas.dfy` (delta shapes), `store.dfy` (store and invariant), `containments.dfy`
(the managers), `scenarios.dfy` (the `containment_1` tests), `validation.dfy` (the validator).

Under the ownership invariant, replacing the occupant of a box always emits two deltas. The
`ChildDeleted` delta is guarded by a back-link test, at containments.ts:115 and 172, marked by a
FIXME at lines 116 and 173. That test always holds while the invariant does
(`Containments.Graph.DetachOccupant`). So a replacement emits `ChildDeleted` and then
`ChildReplaced`, which is what containment_1.tests.ts:146-149 expects.

## Model

| member | source | states |
|---|---|---|
| ContainmentStore.EmptyIsConsistent | packages/class-core/src/value-managers/containments.ts:54 | Fresh managers (empty boxes, empty arrays, no back-links) satisfy the ownership invariant. |
| ContainmentStore.BackLinkIff | packages/class-core/src/value-managers/containments.ts:96-104 | Under the invariant, a node's back-links point at manager k exactly when k's box or array holds it. |
| ContainmentStore.BackLinkIffAll | packages/class-core/src/value-managers/containments.ts:96-104 | The same equivalence for every node of one manager at once. |
| ContainmentStore.SingleOwner | packages/class-core/src/value-managers/containments.ts:225-235 | Under the invariant a node is held by at most one manager, and in an array only at the position findIndex returns. |
| ContainmentStore.WithoutKeepsConsistent | packages/class-core/src/value-managers/containments.ts:96-99 | Taking a node out of its manager and detaching it keeps the invariant, leaves it unheld and unattached, and changes no other node's back-links and no other manager. |
| ContainmentStore.WithoutFrame | packages/class-core/src/value-managers/containments.ts:96-99 | Taking a node out changes no other node's back-links and no manager other than its home, with or without the invariant. |
| ContainmentStore.TakeOutOfArray | packages/class-core/src/value-managers/containments.ts:230-232 | Removing a node from the array of a multi-valued manager and detaching it keeps the invariant. |
| ContainmentStore.TakeOutOfArrayArrays | packages/class-core/src/value-managers/containments.ts:230-232 | After that removal every array is still duplicate-free and every array element still points back at its manager. |
| ContainmentStore.TakeOutOfArrayRest | packages/class-core/src/value-managers/containments.ts:230-232 | After that removal the back-link key sets agree, boxes are still owned, and every attached node is still held at home. |
| ContainmentStore.TakeOutOfBox | packages/class-core/src/value-managers/containments.ts:107-110 | Emptying a single-valued box and detaching its occupant keeps the invariant. |
| ContainmentStore.PutInSlotKeepsConsistent | packages/class-core/src/value-managers/containments.ts:103-104 | Putting a detached node into an empty box (setDirectly then attachTo) keeps the invariant. |
| ContainmentStore.PutInSlotHeld | packages/class-core/src/value-managers/containments.ts:103-104 | After that put, every attached node is held by the manager its back-links name. |
| ContainmentStore.InsertedAtKeepsConsistent | packages/class-core/src/value-managers/containments.ts:220-234 | Splicing a detached node into an array at a valid index and attaching it keeps the invariant. |
| ContainmentStore.InsertedAtOccupants | packages/class-core/src/value-managers/containments.ts:220-234 | After that insertion every array element points back at its manager. |
| ContainmentStore.MovedKeepsConsistent | packages/class-core/src/value-managers/containments.ts:247-256 | Moving an element within an array by valid indices keeps the invariant. |
| ContainmentStore.SetLeavesSlot | packages/class-core/src/value-managers/containments.ts:90-129 | For each branch of set, the final box holds the new value, the new child points back at it, and a replaced child is detached. |
| ContainmentStore.ReplaceKeepsConsistent | packages/class-core/src/value-managers/containments.ts:115-125 | The replacement steps, in the order the code runs them, equal "old child taken out, new child taken out, new child put in the box", and keep the invariant. |
| ContainmentStore.InsertKeepsConsistent | packages/class-core/src/value-managers/containments.ts:225-235 | The steps of insertAtIndex, in the code's order, equal "child taken out of its old home, then inserted and attached". The old home index is unaffected by the splice, and the result keeps the invariant. |
| ContainmentStore.InsertedInOrderEquals | packages/class-core/src/value-managers/containments.ts:225-235 | The same ordering equality without the invariant, and taking the child out leaves the target array unchanged. |
| Splices.FindIndex | packages/class-core/src/value-managers/containments.ts:239 | findIndex gives -1 exactly when the element is absent, otherwise the first position holding it. |
| Splices.FindIndexUnique | packages/class-core/src/value-managers/containments.ts:239 | In a duplicate-free array, findIndex of the element at i is i. |
| Splices.InsertAtContents | packages/class-core/src/value-managers/containments.ts:222 | splice(i, 0, x) grows the array by one, puts x at i, shifts the suffix, and adds x to the multiset. |
| Splices.RemoveAtContents | packages/class-core/src/value-managers/containments.ts:241 | splice(i, 1) shrinks by one, shifts the suffix left, and removes exactly that element from the multiset. |
| Splices.InsertAtNoDuplicates | packages/class-core/src/value-managers/containments.ts:222 | Inserting an absent element keeps an array duplicate-free, and its members become the old ones plus x. |
| Splices.RemoveAtNoDuplicates | packages/class-core/src/value-managers/containments.ts:241 | Removal keeps an array duplicate-free, and its members become the old ones minus the removed one. |
| Splices.MovedContents | packages/class-core/src/value-managers/containments.ts:251-252 | Remove-then-insert moves the element from old to new index, shifts exactly the elements in between, leaves the rest in place, and is a permutation. |
| Splices.MovedNoDuplicates | packages/class-core/src/value-managers/containments.ts:251-252 | A move keeps an array duplicate-free with the same members. |
| Containments.CheckIndex | packages/class-core/src/value-managers/containments.ts:221 | The index check passes exactly for an element position, or also for the end position when the end is allowed, and otherwise fails with the out-of-bounds error. |
| Containments.Graph.constructor | packages/class-core/src/value-managers/containments.ts:54 | A new graph has empty managers, no back-links, no deltas, and satisfies the invariant. |
| Containments.Graph.AttachTo | packages/class-core/src/value-managers/containments.ts:104 | attachTo sets both back-links of the node to the manager, and nothing else changes. |
| Containments.Graph.Detach | packages/class-core/src/value-managers/containments.ts:108 | detach clears both back-links of the node, and nothing else changes. |
| Containments.Graph.EmitDelta | packages/class-core/src/value-managers/containments.ts:99 | emitDelta appends exactly one delta and changes no storage. |
| Containments.Graph.RemoveFromParent | packages/class-core/src/value-managers/containments.ts:230 | removeFromParent takes the node out of the manager its containment names and returns its index there (0 for a box). |
| Containments.Graph.SingleGetDirectly | packages/class-core/src/value-managers/containments.ts:56-58 | Under the invariant, the box's content is exactly the node whose back-links point at it. |
| Containments.Graph.SingleIsSet | packages/class-core/src/value-managers/containments.ts:60-62 | isSet is true exactly when the box is defined, equivalently when some node points back at the manager. |
| Containments.Graph.SingleSetDirectly | packages/class-core/src/value-managers/containments.ts:64-66 | setDirectly overwrites the box and touches nothing else, with no delta. |
| Containments.Graph.SingleAddDirectly | packages/class-core/src/value-managers/containments.ts:68-74 | addDirectly fails exactly when the box is occupied, leaving it unchanged, and otherwise fills it, with no delta. |
| Containments.Graph.SetIntoEmptySlot | packages/class-core/src/value-managers/containments.ts:91-105 | Setting an empty box takes the child out of its old manager and puts it into the box, keeps the invariant, and emits ChildMoved (old parent and containment) if it was attached, else ChildAdded. |
| Containments.Graph.DetachOccupant | packages/class-core/src/value-managers/containments.ts:115-119 | Under the invariant the back-link test always holds, so replacing emits ChildDeleted of the old child and then detaches it. |
| Containments.Graph.ReplaceChild | packages/class-core/src/value-managers/containments.ts:112-126 | Replacing a different child leaves the old child detached and the new child (taken out of its old home) in the box, keeps the invariant, and emits ChildDeleted then ChildReplaced. |
| Containments.Graph.OptionalSingleGet | packages/class-core/src/value-managers/containments.ts:86-88 | get of an optional box returns its content, which under the invariant is the node pointing back at it. |
| Containments.Graph.OptionalSingleSet | packages/class-core/src/value-managers/containments.ts:90-129 | All four branches of set: no change and no delta for the same value; move-or-add into an empty box; ChildDeleted and detach on unset; ChildDeleted plus ChildReplaced on replace. The invariant is kept and the box ends holding the new value. |
| Containments.Graph.RequiredSingleGet | packages/class-core/src/value-managers/containments.ts:141-147 | get fails with the unset-read error exactly when the box is empty, and otherwise returns the node attached there. |
| Containments.Graph.RequiredSingleSet | packages/class-core/src/value-managers/containments.ts:149-186 | As the optional set, except that unsetting an occupied box fails with the unset error and changes nothing; that is the only failure. |
| Containments.Graph.MultiGet | packages/class-core/src/value-managers/containments.ts:200-206 | Under the invariant the array is duplicate-free and holds exactly the nodes pointing back at the manager. |
| Containments.Graph.MultiIsSet | packages/class-core/src/value-managers/containments.ts:208-210 | isSet is true exactly when the array is non-empty, equivalently when some node points back at the manager. |
| Containments.Graph.MultiAddDirectly | packages/class-core/src/value-managers/containments.ts:212-214 | addDirectly appends to the array only, with no delta. |
| Containments.Graph.MultiInsertAtIndexDirectly | packages/class-core/src/value-managers/containments.ts:220-223 | The index check passes exactly for 0 <= index <= length. On failure nothing changes; otherwise the child is spliced in at index, with no delta. |
| Containments.Graph.MultiInsertAtIndex | packages/class-core/src/value-managers/containments.ts:225-235 | Bad index: out-of-bounds failure, nothing changes. Otherwise the child is taken out of its old home and inserted and attached at index, the invariant is kept, and ChildAdded is emitted, or ChildMoved with the old parent, containment and index. |
| Containments.Graph.MultiAdd | packages/class-core/src/value-managers/containments.ts:216-218 | add is insertAtIndex at the end: the array gains the child last, with the same deltas and invariant. |
| Containments.Graph.MultiRemoveDirectly | packages/class-core/src/value-managers/containments.ts:237-245 | Returns findIndex of the child. With -1 nothing changes; otherwise exactly that position is removed, with no delta and no back-link change. |
| Containments.Graph.MultiMoveDirectly | packages/class-core/src/value-managers/containments.ts:247-256 | Fails exactly when either index is outside the array. Equal indices return undefined and change nothing. Otherwise the moved child is returned and the array is moved. |
| Containments.Graph.MultiMove | packages/class-core/src/value-managers/containments.ts:258-263 | move moves the element and emits one ChildMovedInSameContainment when the indices differ, emits nothing when they are equal, fails on bad indices, and keeps the invariant. |
| Containments.Graph.RemoveChildAt | packages/class-core/src/value-managers/containments.ts:278-282 | Removing a held child at its findIndex position detaches it, keeps the invariant, and emits ChildDeleted with that index. |
| Containments.Graph.OptionalMultiRemove | packages/class-core/src/value-managers/containments.ts:275-283 | Removing an absent child changes nothing. Removing a present one takes it out at its first index, detaches it and emits ChildDeleted with that index. |
| Containments.Graph.RequiredMultiGet | packages/class-core/src/value-managers/containments.ts:295-301 | get fails with the unset-read error exactly when the array is empty, and otherwise returns it. |
| Containments.Graph.RequiredMultiRemove | packages/class-core/src/value-managers/containments.ts:303-314 | Fails with the unset error, changing nothing, exactly when removing the only element. Otherwise it behaves as the optional remove. |
| ContainmentScenarios.SettingASingleValue | packages/class-core-test/src/value-managers/containment_1.tests.ts:54-71 | After setting containment_1, it reads the child, the child's parent is the container, and the log is one ChildAdded at index 0. |
| ContainmentScenarios.UnsettingASingleValue | packages/class-core-test/src/value-managers/containment_1.tests.ts:73-86 | Unsetting a set required containment fails with the unset error, and the child stays readable. |
| ContainmentScenarios.MovingAChildBetweenParents | packages/class-core-test/src/value-managers/containment_1.tests.ts:88-120 | After the first set, the child is read from the first parent and reading the second parent fails. The child's back-links name the first parent and containment_1. After setting the same child on the second parent, the first parent's read fails and the second reads the child. The child's parent is the second and its containment is containment_1. The log is ChildAdded then ChildMoved, with indices 0. |
| ContainmentScenarios.ChildInSourceParent | packages/class-core-test/src/value-managers/containment_1.tests.ts:95-106 | The first set on a fresh graph puts the child in the source parent's box, with its back-links there. The destination box stays empty, and the log is one ChildAdded. |
| ContainmentScenarios.TwoParentsEachHoldingAChild | packages/class-core-test/src/value-managers/containment_1.tests.ts:123-132 | Two set calls on two parents leave each child in its parent's box and two deltas in the log. |
| ContainmentScenarios.MoveIntoOccupiedSlot | packages/class-core-test/src/value-managers/containment_1.tests.ts:135 | Setting the moved child on the occupied parent empties the source box and fills the destination box. The moved child points at the destination, the old child is detached, and ChildDeleted then ChildReplaced are appended. |
| ContainmentScenarios.ReplacingAnAlreadyPresentChild | packages/class-core-test/src/value-managers/containment_1.tests.ts:122-150 | The source parent's read fails and the destination reads the moved child. The moved child's parent is the destination and the old child has no parent. The log has four entries, ending ChildDeleted then ChildReplaced. |
| LanguageReferenceValidation.Language.GetNodeByMetaPointer | packages/validation/src/validators/LionWebLanguageReferenceValidator.ts:48 | The lookup finds a definition exactly when the meta-pointer is defined, and returns that definition. |
| LanguageReferenceValidation.Then | packages/validation/src/validators/LionWebLanguageReferenceValidator.ts:46-62 | Running one step after another only appends issues, and the combined run passes exactly when both steps pass. |
| LanguageReferenceValidation.ThenAssociates | packages/validation/src/validators/LionWebLanguageReferenceValidator.ts:46-62 | Sequencing steps groups either way, so a loop's run may be split at any entry. |
| LanguageReferenceValidation.ThenQuietStep | packages/validation/src/validators/LionWebLanguageReferenceValidator.ts:46-62 | A step that reports nothing and does not throw changes no run it precedes or follows. |
| LanguageReferenceValidation.PropertiesRun | packages/validation/src/validators/LionWebLanguageReferenceValidator.ts:53-55 | The property loop reports at most one issue per property, and the only error it can throw is the empty-targets one. |
| LanguageReferenceValidation.ContainmentsIssues | packages/validation/src/validators/LionWebLanguageReferenceValidator.ts:56-58 | The containment loop reports at most one issue per containment. |
| LanguageReferenceValidation.ReferencesIssues | packages/validation/src/validators/LionWebLanguageReferenceValidator.ts:59-61 | The reference loop reports at most one issue per reference. |
| LanguageReferenceValidation.NodeRun | packages/validation/src/validators/LionWebLanguageReferenceValidator.ts:47-61 | One node reports at most one issue per feature entry, plus at most one for its concept. The only error it can throw is the empty-targets one. |
| LanguageReferenceValidation.ChunkRun | packages/validation/src/validators/LionWebLanguageReferenceValidator.ts:46-62 | With a language present, the only error the node loop can throw is the empty-targets one. |
| LanguageReferenceValidation.FindProperty | packages/validation/src/validators/LionWebLanguageReferenceValidator.ts:113 | Array find over properties: nothing found exactly when no property has the key, otherwise the first with it. |
| LanguageReferenceValidation.FindReference | packages/validation/src/validators/LionWebLanguageReferenceValidator.ts:112 | Array find over references: nothing found exactly when no reference has the key, otherwise the first with it. |
| LanguageReferenceValidation.PropertyRun | packages/validation/src/validators/LionWebLanguageReferenceValidator.ts:96-134 | validateProperty reports at most one issue, always at its own context. A null value reports nothing; the only thrown error is the empty-targets one, which reports nothing. |
| LanguageReferenceValidation.ContainmentIssues | packages/validation/src/validators/LionWebLanguageReferenceValidator.ts:65-75 | validateContainment reports at most one issue, at its own context. |
| LanguageReferenceValidation.ReferenceIssues | packages/validation/src/validators/LionWebLanguageReferenceValidator.ts:77-90 | validateReference reports at most one issue, at its own context. |
| LanguageReferenceValidation.PropertiesRunOrdered | packages/validation/src/validators/LionWebLanguageReferenceValidator.ts:53-55 | The property loop's issues all lie in this node's properties section, below its length, in strictly increasing index order. |
| LanguageReferenceValidation.ContainmentsIssuesOrdered | packages/validation/src/validators/LionWebLanguageReferenceValidator.ts:56-58 | The containment loop's issues lie in the containments section, in increasing index order. |
| LanguageReferenceValidation.ReferencesIssuesOrdered | packages/validation/src/validators/LionWebLanguageReferenceValidator.ts:59-61 | The reference loop's issues lie in the references section, in increasing index order. |
| LanguageReferenceValidation.NodeRunOrdered | packages/validation/src/validators/LionWebLanguageReferenceValidator.ts:47-61 | A node's issues all belong to that node, ordered concept, then properties, containments, references, each by index. |
| LanguageReferenceValidation.ChunkRunOrdered | packages/validation/src/validators/LionWebLanguageReferenceValidator.ts:46-62 | A chunk's issues name nodes of the chunk and come out in document order, so no two share a context. |
| LanguageReferenceValidation.ChunkRunPerNode | packages/validation/src/validators/LionWebLanguageReferenceValidator.ts:46-62 | When no error is thrown, the issues a chunk reports for node n are exactly those node n reports when validated on its own. |
| LanguageReferenceValidation.UnknownConceptIff | packages/validation/src/validators/LionWebLanguageReferenceValidator.ts:48-52 | A node reports exactly one UnknownConcept and stops if and only if its classifier is not in the language. Otherwise all of its issues are feature issues. |
| LanguageReferenceValidation.ChunkRunStops | packages/validation/src/validators/LionWebLanguageReferenceValidator.ts:46-62 | Once an error is thrown after a prefix of the nodes, later nodes add nothing. |
| LanguageReferenceValidation.PropertiesRunStops | packages/validation/src/validators/LionWebLanguageReferenceValidator.ts:53-55 | Once an error is thrown at a property, later properties add nothing. |
| LanguageReferenceValidation.UnknownPropertyIff | packages/validation/src/validators/LionWebLanguageReferenceValidator.ts:97-104 | A property reports UnknownProperty if and only if its value is non-null and its meta-pointer is undefined. |
| LanguageReferenceValidation.IncorrectPropertyIff | packages/validation/src/validators/LionWebLanguageReferenceValidator.ts:105-108 | A property reports IncorrectPropertyMetaPointer with key K, and nothing else, if and only if its value is non-null, it resolves, and K is the definition's metaconcept key and not Property. |
| LanguageReferenceValidation.ValueCheckIff | packages/validation/src/validators/LionWebLanguageReferenceValidator.ts:112-129 | A value check of kind K is requested if and only if the value is non-null, the definition is a Property with a name, and its first type target is K's built-in type. |
| LanguageReferenceValidation.PropertyThrowsIff | packages/validation/src/validators/LionWebLanguageReferenceValidator.ts:112-117 | validateProperty throws if and only if the value is non-null, the property resolves to a named Property definition, and its property-type reference has no target. |
| LanguageReferenceValidation.PropertyQuietIff | packages/validation/src/validators/LionWebLanguageReferenceValidator.ts:96-134 | validateProperty reports nothing and does not throw if and only if one of these holds: the value is null; the definition is a Property without a name or without a property-type reference; or its first type target is none of Boolean, Integer and JSON. |
| LanguageReferenceValidation.StringNotChecked | packages/validation/src/validators/LionWebLanguageReferenceValidator.ts:124-125 | A String-typed property reports nothing and throws nothing. |
| LanguageReferenceValidation.ContainmentIssuesIff | packages/validation/src/validators/LionWebLanguageReferenceValidator.ts:65-75 | The three outcomes of validateContainment, each in both directions: unknown exactly when undefined; incorrect with key K exactly when resolved to non-Concept K; none exactly when resolved to a Concept. |
| LanguageReferenceValidation.ReferenceIssuesIff | packages/validation/src/validators/LionWebLanguageReferenceValidator.ts:77-90 | The same three outcomes for validateReference. |
| LanguageReferenceValidation.LanguageReferenceValidator.constructor | packages/validation/src/validators/LionWebLanguageReferenceValidator.ts:31-35 | The validator starts with the given issue list and language. |
| LanguageReferenceValidation.LanguageReferenceValidator.Report | packages/validation/src/validators/LionWebLanguageReferenceValidator.ts:50 | Reporting appends exactly one issue. |
| LanguageReferenceValidation.LanguageReferenceValidator.Validate | packages/validation/src/validators/LionWebLanguageReferenceValidator.ts:42-63 | Without a language nothing is reported. Otherwise the loop appends exactly the chunk's issues and ends with its outcome. |
| LanguageReferenceValidation.LanguageReferenceValidator.ValidateNode | packages/validation/src/validators/LionWebLanguageReferenceValidator.ts:47-61 | The per-node body appends exactly that node's issues through its three loops. |
| LanguageReferenceValidation.LanguageReferenceValidator.ValidateContainment | packages/validation/src/validators/LionWebLanguageReferenceValidator.ts:65-75 | Appends exactly the containment's issues. |
| LanguageReferenceValidation.LanguageReferenceValidator.ValidateReference | packages/validation/src/validators/LionWebLanguageReferenceValidator.ts:77-90 | Appends exactly the reference's issues. |
| LanguageReferenceValidation.LanguageReferenceValidator.ValidateProperty | packages/validation/src/validators/LionWebLanguageReferenceValidator.ts:96-134 | Appends exactly the property's issues with its outcome. Without a language, a null value returns quietly and any other value throws the missing-language error. |

## Left out

- MobX observability (`observable.box`, `observable.array`, `@action`) is not modelled: every
  operation is one atomic step, and there is no reactivity or transactions.
- `removeFromParent`, `checkIndex`, `emitDelta`, `attachTo`, `detach`, `throwOnUnset` and
  `throwOnReadOfUnset` live in `base-types.ts` and `base.ts`; those files are not part of this
  model. They are modelled from their use here:
  - `removeFromParent` empties a box (result 0) or removes the first occurrence from an array
    (result its index);
  - `checkIndex` accepts `0 <= index < length`, or `<= length` when the end is allowed;
  - `emitDelta` appends to one shared log. A delta is logged even when the container was
    created without a handler, when the code has no handler to pass it to;
  - the thunk passed to `emitDelta` is taken as evaluated at the call. It reads
    `newChild.containment` (containments.ts:99) and `newChild.parent` (containments.ts:231),
    which `detach` and `attachTo` overwrite right after (containments.ts:104, 232, 234). So the
    delta holds the values at the call; a handler that ran the thunk later is not modelled;
  - a throw becomes a `Fail`/`Failure` result.
- Containments.Graph.MultiInsertAtIndex and Containments.Graph.MultiAdd require that the child
  is not already in this same array. The code then splices it in a second time before removing
  the first occurrence, so the list and the index it reports depend on positions; the model
  does not cover that case.
- Cyclic containment (a node becoming its own ancestor) is neither checked by the code nor
  excluded by the model; the invariant speaks only of back-links.
- The emitting operations require the ownership invariant (`Graph.Valid`). Under it the FIXME
  guard at containments.ts:115-118 and 172-175 is always true (Containments.Graph.DetachOccupant),
  so the case where it is false is not modelled.
- Containments.Graph.MultiGet: `getDirectly()` returns the live MobX array, which callers can
  mutate. The model returns a value, so that aliasing is not modelled. The multi-valued `get()`
  (containments.ts:204-206) returns a copy in the code and the same value in the model.
- Containments.Graph.RequiredMultiGet: the required multi-valued `get()` (containments.ts:295-301)
  returns `children`, the live array itself and not a copy. The model returns its value, so
  mutation through the returned array is not modelled.
- Containments.CheckIndex: indices are JavaScript `number`s in the code (containments.ts:220,
  247) and Dafny `int`s in the model. The code of `checkIndex` is in a file that is not part of
  this model, so its handling of fractional or NaN indices is not modelled; the model checks
  only the integer range.
- The ChildMoved delta emitted by `set` carries old index 0 even when the old parent held the
  child in an array; this is modelled as written.
- Deltas carry node ids and a `Containment` value (key, optional, multiple) instead of node
  objects and the `Containment` metamodel object. Delta serialization, `newNodes` chunks,
  property and reference value managers, and node creation are out of scope.
- LanguageReferenceValidation.ValueCheckIff: `SimpleFieldValidator.validateBoolean`,
  `validateInteger` and `validateJSON` are in a file that is not part of this model. The model
  records that such a check is requested (`ValueCheck` with the kind, the property and its name)
  rather than deciding whether the value is well formed.
- `JsonContext` paths are simplified to node index, section and index. The concrete path
  strings and the `ValidationResult` object are not modelled; issues are a sequence.
- The constants `LIONWEB_M3_CONCEPT_KEY`, `LIONWEB_M3_PROPERTY_KEY`,
  `LIONWEB_M3_PROPERTY_TYPE_KEY`, `LION_CORE_BUILTINS_INAMED_NAME` and the built-in type keys
  are defined in files that are not part of this model. Their values are taken from the LionWeb
  M3 conventions (`"Concept"`, `"Property"`, `"Property-type"`, `"LionCore-builtins-…"`).
- The TypeError from `refType.targets[0].reference` on an empty target list becomes the
  `Fail(EmptyPropertyTypeTargets)` outcome, which stops the validation, as a thrown exception
  would.
- LanguageReferenceValidation.LanguageReferenceValidator.ValidateContainment and
  LanguageReferenceValidation.LanguageReferenceValidator.ValidateReference require a language.
  They are private and only reached from `validate` after its language check. Without a
  language the code would throw.
- `LionWebValidator`, the syntax and reference validators, `LanguageUtils` and the CLI are out
  of scope.
