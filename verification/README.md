# STK Mesh bulk-data bookkeeping and Tpetra offset scans, in Dafny

This project models the local bookkeeping core of `stk::mesh::BulkData`, the
mesh database of the Sierra Toolkit in Trilinos, and proves properties of
that model. It also models the two offset scans of
`Tpetra::Details::computeOffsets`.

What is modelled:

- **Entity slots.** An entity is a local offset into four per-entity arrays:
  mesh index, key, state and synchronisation count. Slot 0 is reserved. Offsets
  freed in the current modification cycle wait on their own list. They join
  the reusable list only when `update_deleted_entities_container` runs.
- **The entity repository.** `EntityRepository` maps each active key to its
  entity. It is a `std::map`, so iteration is in key order.
- **The modification cycle.** `modification_begin` and the
  `require_ok_to_modify` guard.
- **The "modified" flood.** Marking an entity modified spreads upward through
  its relations to every higher-ranked entity that was still `Unchanged`.
- **Entities.** Declaring, re-keying, destroying and generating entities.
- **Relations.** Declaring and destroying relations, including the inverse
  relation and the part memberships a relation induces.
- **Parallel bookkeeping.** The comm-info queries `in_shared`,
  `in_send_ghost`, `in_ghost` and `comm_procs`, and the updates the mesh makes
  to its sorted comm list.
- **Field storage.** Each bucket has one block of bytes. The field callbacks
  lay that block out for a new bucket, swap an entity's slots between buckets,
  reset a removed entity's slots, free a bucket, rotate the states of
  multi-state fields and renumber buckets.

Errors that the library raises with `ThrowRequireMsg` or `ThrowErrorMsgIf`
become `Err`/`Fail` results (`MeshTypes.MeshError`). Each contract states
which inputs lead to which error, and that every error other than an
internal-inverse error leaves the mesh unchanged.

Layout:

| file | module | models |
|---|---|---|
| `mesh_types.dfy` | `MeshTypes` | entity keys and their 64-bit order, entity and mesh states, errors |
| `entity_repository.dfy` | `Repository` | `stk::mesh::impl::EntityRepository` |
| `comm_list.dfy` | `CommList` | entity comm info, the comm list and the lookups over them |
| `connectivity.dfy` | `Connectivity` | relation lists as values, relation checks, the symmetry of relations and their inverses, the upward paths of the flood |
| `bulk_data.dfy` | `Mesh` | `class BulkData`: slots, free lists, the cycle, the flood, entities, relations, comm-list updates |
| `field_data.dfy` | `FieldData` | `class FieldDataManager`: `m_num_fields`, `m_field_meta_data`, `m_field_raw_data` and the field callbacks |
| `compute_offsets.dfy` | `ComputeOffsets` | `computeOffsetsFromCounts` and `computeOffsetsFromConstantCount` on an `array<int64>` |

Where the documented behaviour and the code differ, the model follows the
code. Suppose `modification_begin` runs twice in a row on a new mesh. The
first call returns true without resetting any state. The second call finds
the mesh already `MODIFIABLE`, so it returns false and changes nothing: it
does not reset the entity states to `Unchanged`.

## Model

All BulkData paths are under `packages/stk/stk_mesh/stk_mesh/`.

| member | source | states |
|---|---|---|
| `Repository.EntityRepository.constructor` | packages/stk/stk_mesh/stk_mesh/baseImpl/EntityRepository.hpp:55-56 | a new repository records no key |
| `Repository.EntityRepository.InternalCreateEntity` | packages/stk/stk_mesh/stk_mesh/baseImpl/EntityRepository.hpp:65-70 | `created` holds exactly when the key was not active. An active key returns its entity and leaves the map unchanged. A new key is bound to the next handle, even if it was destroyed before. |
| `Repository.EntityRepository.UpdateEntityKey` | packages/stk/stk_mesh/stk_mesh/baseImpl/EntityRepository.hpp:74 | the entity is found under the new key and no longer under the old one; every other key keeps its mapping |
| `Repository.EntityRepository.DestroyEntity` | packages/stk/stk_mesh/stk_mesh/baseImpl/EntityRepository.hpp:93-97 | the key is gone; every other key keeps its mapping |
| `Repository.EntityRepository.OrderedKeys` | packages/stk/stk_mesh/stk_mesh/baseImpl/EntityRepository.hpp:48-63 | iteration visits every active key exactly once, in strictly increasing key order |
| `CommList.InGhostIffPresent` | packages/stk/stk_mesh/stk_mesh/base/BulkData.cpp:716-726 | on sorted comm info, `in_ghost` (lower bound, then compare) is true exactly when the (ghosting, process) pair is present |
| `CommList.SharingIsOrdinalZero` | packages/stk/stk_mesh/stk_mesh/base/BulkData.cpp:692-695 | on sorted comm info, the sharing run holds exactly the entries of ghosting 0 |
| `CommList.InSharedIsGhostZero` | packages/stk/stk_mesh/stk_mesh/base/BulkData.cpp:692-701 | `in_shared` agrees with `in_ghost` on the shared ghosting |
| `CommList.InSendGhostIsSomeGhosting` | packages/stk/stk_mesh/stk_mesh/base/BulkData.cpp:703-714 | `in_send_ghost` holds exactly when some non-shared ghosting sends to that process and the process is not the owner |
| `CommList.InsertUniqueMembers` | packages/stk/stk_mesh/stk_mesh/base/BulkData.cpp:734-737 | after inserting one process, the members are the old ones plus that process |
| `CommList.InsertUniqueSorted` | packages/stk/stk_mesh/stk_mesh/base/BulkData.cpp:734-737 | inserting keeps the process list strictly sorted, i.e. sorted and unique |
| `CommList.CommProcs` | packages/stk/stk_mesh/stk_mesh/base/BulkData.cpp:728-738 | the result is strictly increasing and holds exactly the processes named in the comm info |
| `CommList.GhostingProcsMembers` | packages/stk/stk_mesh/stk_mesh/base/BulkData.cpp:740-749 | a process is listed for a ghosting exactly when its (ordinal, process) entry exists |
| `CommList.CommProcsOfGhosting` | packages/stk/stk_mesh/stk_mesh/base/BulkData.cpp:740-749 | lists the processes of that ghosting in comm-info order, exactly those with an entry for it |
| `CommList.LowerBoundKey` | packages/stk/stk_mesh/stk_mesh/base/BulkData.cpp:610-611 | every entry before the result has a smaller key, and the entry at the result (if any) does not |
| `CommList.LowerBoundFindsKey` | packages/stk/stk_mesh/stk_mesh/base/BulkData.cpp:610-613 | on a sorted comm list the lower bound lands on the entry of the key whenever one exists |
| `CommList.ClearEntityOf` | packages/stk/stk_mesh/stk_mesh/base/BulkData.cpp:609-614 | only the entry with the destroyed key loses its handle; length, order, keys and owners stay |
| `CommList.ChangeOwnerOf` | packages/stk/stk_mesh/stk_mesh/base/BulkData.cpp:755-760 | only the entry with the key gets the new owner; the list stays sorted and every other entry is untouched |
| `Connectivity.DeclareInList` | packages/stk/stk_mesh/stk_mesh/base/BulkDataRelation.cpp:74-75 | reports a change exactly when the (target, ordinal) pair was absent; it adds exactly that relation and keeps the list free of duplicates |
| `Connectivity.DestroyInList` | packages/stk/stk_mesh/stk_mesh/base/BulkDataRelation.cpp:257 | reports a change exactly when the pair was present; it removes one relation and only that pair |
| `Connectivity.DestroyAtPosition` | packages/stk/stk_mesh/stk_mesh/base/BulkData.cpp:595-599 | removing the relation found at position j cuts out exactly position j, so the positions before j keep their relations |
| `Connectivity.CheckValidRelation` | packages/stk/stk_mesh/stk_mesh/base/BulkDataRelation.cpp:32-53 | passes exactly when both ends are live and the from-rank is higher; a destroyed end is reported before a wrong rank order |
| `Connectivity.DegenerateRelationFacts` | packages/stk/stk_mesh/stk_mesh/base/BulkDataRelation.cpp:57-60 | degeneracy is symmetric and irreflexive: the same rank and identifier leading to different entities |
| `Connectivity.DeclarePairFacts` | packages/stk/stk_mesh/stk_mesh/base/BulkDataRelation.cpp:106-124 | declaring never loses a relation and leaves the forward relation stored; a relation it adds is the forward relation or its inverse |
| `Connectivity.DeclarePairKeepsSymmetric` | packages/stk/stk_mesh/stk_mesh/base/BulkDataRelation.cpp:109-124 | on a symmetric table a new relation's inverse is absent, so its insert reports a change; the table stays symmetric whether or not the inverse is tracked |
| `Connectivity.DeclarePairKeepsStored` | packages/stk/stk_mesh/stk_mesh/base/BulkDataRelation.cpp:152-161 | a relation stored before a declaration stays stored |
| `Connectivity.DeclarePairExtendsPrefix` | packages/stk/stk_mesh/stk_mesh/base/BulkDataRelation.cpp:152-161 | declaring relation n of a list from the higher to the lower ranked entity extends the stored prefix to n + 1 |
| `Connectivity.DestroyPairFacts` | packages/stk/stk_mesh/stk_mesh/base/BulkDataRelation.cpp:256-266 | on a table without duplicates, destroying removes the forward relation and touches nothing but it and its inverse; no list loses more than one relation |
| `Connectivity.DestroyPairKeepsSymmetric` | packages/stk/stk_mesh/stk_mesh/base/BulkDataRelation.cpp:256-266 | on a symmetric table a tracked inverse is present, so its removal reports a change, and the table stays symmetric |
| `Connectivity.MarkedIsReachable` | packages/stk/stk_mesh/stk_mesh/base/BulkData.cpp:306-336 | the flood is exact: the newly modified entities are precisely those reachable upward from the start through `Unchanged` entities |
| `Connectivity.FloodStep` | packages/stk/stk_mesh/stk_mesh/base/BulkData.cpp:326-333 | a recursive call on an upward neighbour keeps every newly marked entity reachable, and keeps the marking closed except at the start |
| `Connectivity.PathMarked` | packages/stk/stk_mesh/stk_mesh/base/BulkData.cpp:326-333 | every entity along an upward `Unchanged` path from a newly marked start is newly marked |
| `Connectivity.TwoFloods` | packages/stk/stk_mesh/stk_mesh/base/BulkDataRelation.cpp:270-273 | two exact markings, from `to` and then from `from`, newly mark exactly the entities reachable upward from either through entities `Unchanged` at the start, closed upward |
| `Connectivity.DestroyPairFrame` | packages/stk/stk_mesh/stk_mesh/base/BulkDataRelation.cpp:256-266 | destroying a relation of e and its inverse loses only relations of e and relations leading to e; lists without a relation to e are untouched |
| `Connectivity.DropListsFrame` | packages/stk/stk_mesh/stk_mesh/base/BulkData.cpp:620 | dropping every list of e stays within that frame |
| `Mesh.ReverseKeepsElements` | packages/stk/stk_mesh/stk_mesh/base/BulkData.cpp:203-207 | moving offsets one at a time from one front to another keeps every offset with its multiplicity |
| `Mesh.FreeReuse` | packages/stk/stk_mesh/stk_mesh/base/BulkData.cpp:397-402 | handing out the front of the free list, or a new slot past the end, leaves a valid free list without that offset |
| `Mesh.KeepRanksMembers` | packages/stk/stk_mesh/stk_mesh/base/BulkDataRelation.cpp:212-231 | the kept parts are exactly those induced through a relation of `to` to a higher rank, other than the one being destroyed |
| `Mesh.RelBelowIff` | packages/stk/stk_mesh/stk_mesh/base/BulkDataRelation.cpp:235-249 | the search over the lists of `from` finds the relation exactly when some list below the rank count stores it |
| `Mesh.ClearedAfterDestroy` | packages/stk/stk_mesh/stk_mesh/base/BulkData.cpp:595-600 | destroying the relation at position j extends the cleared suffix of that list to j, and the list keeps at least j entries |
| `Mesh.DestroyKeepsCleared` | packages/stk/stk_mesh/stk_mesh/base/BulkData.cpp:589-601 | destroying a relation of the entity keeps every already-cleared list cleared |
| `Mesh.MarksKeepCleared` | packages/stk/stk_mesh/stk_mesh/base/BulkData.cpp:598-599 | the modified marks made by `destroy_relation` do not undo a cleared list |
| `Mesh.GeneratedStep` | packages/stk/stk_mesh/stk_mesh/base/BulkData.cpp:664-687 | creating the entity of the next generated key extends the generated entities: fresh key, distinct live entity, owned part only, owned here |
| `Mesh.RelationDeclaredParts` | packages/stk/stk_mesh/stk_mesh/base/BulkDataRelation.cpp:134-139 | a declaration adds the induced parts to `to` and changes no other entity's parts |
| `Mesh.RelationDeclaredMarks` | packages/stk/stk_mesh/stk_mesh/base/BulkDataRelation.cpp:126-131 | a declaration only moves states from `Unchanged` to `Modified`; when the relation was new both ends end up marked |
| `Mesh.RelationDeclaredRestamps` | packages/stk/stk_mesh/stk_mesh/base/BulkDataRelation.cpp:65-81 | a declaration only adds relations, and the entities whose sync count became the current one are exactly those whose lists gained a relation |
| `Mesh.DeclaredPartsGrow` | packages/stk/stk_mesh/stk_mesh/base/BulkDataRelation.cpp:152-166 | declaring a list of relations never removes a part, and only the lower ranked end of some relation in the list can change its bucket |
| `Mesh.ListDeclareStep` | packages/stk/stk_mesh/stk_mesh/base/BulkDataRelation.cpp:152-166 | declaring relation i from its higher to its lower ranked end extends what the first i relations declared to i + 1: the stored prefix, the folded table and parts, the sync counts, the marking, and the marked ends of every relation not stored before the list |
| `Mesh.EndsMarkedStep` | packages/stk/stk_mesh/stk_mesh/base/BulkDataRelation.cpp:128-131 | when relation i was not stored before the list, the entity and its target are no longer `Unchanged` after it: either it was new at step i and both ends were marked then, or an earlier relation of the list stored it and marked the same ends |
| `Mesh.DeclaredOrigin` | packages/stk/stk_mesh/stk_mesh/base/BulkDataRelation.cpp:152-166 | a downward relation the folded table holds and the table before the list did not comes from a relation of the list oriented the same way, with the same ordinal |
| `Mesh.DeclaredOriginStep` | packages/stk/stk_mesh/stk_mesh/base/BulkDataRelation.cpp:106-124 | the single step of `DeclaredOrigin`: a relation one declaration adds, read downward, is that declaration's oriented relation |
| `Mesh.RelationDeclaredInSteps` | packages/stk/stk_mesh/stk_mesh/base/BulkDataRelation.cpp:100-140 | the relation insert (table, inverse, sync counts) followed by the marking and the induced parts is exactly one `RelationDeclared` |
| `Mesh.MarkedFromListStep` | packages/stk/stk_mesh/stk_mesh/base/BulkDataRelation.cpp:128-131 | one exact marking from a declared relation's ends keeps the list's marking reachable from the entity or a target, and closed upward in the grown table |
| `Mesh.RelationDestroyedMarks` | packages/stk/stk_mesh/stk_mesh/base/BulkDataRelation.cpp:256-273 | a destruction only moves states from `Unchanged` to `Modified`, marks both ends when the relation was stored, and changes no parts except those of `to` |
| `Mesh.UnhookStep` | packages/stk/stk_mesh/stk_mesh/base/BulkData.cpp:590-602 | one `destroy_relation` from the entity to an entity it relates to keeps the loop's effects within `Unhooked`: only its relations and their inverses are gone, both ends of every relation it lost are marked, the marking stays reached from it and closed upward, and only related entities lose parts |
| `Connectivity.DestroyPairDrops` | packages/stk/stk_mesh/stk_mesh/base/BulkDataRelation.cpp:256-266 | a relation that a destruction loses is the forward relation, which was stored, or its inverse |
| `Mesh.RelationCleared` | packages/stk/stk_mesh/stk_mesh/base/BulkData.cpp:595-600 | destroying the relation at position j and marking extends the cleared suffix of that list to j and keeps the lists of higher rank cleared |
| `Mesh.UnhookedRemoved` | packages/stk/stk_mesh/stk_mesh/base/BulkData.cpp:590-623 | removing the entity after its relations are destroyed gives `EntityDestroyed`: it is `Deleted` and unplaced with no lists, every live entity of a valid rank that its list of that rank held is no longer `Unchanged`, and the frame on the other lists, states and parts carries over |
| `Mesh.BulkData.constructor` | packages/stk/stk_mesh/stk_mesh/base/BulkData.cpp:106-179 | slot 0 is reserved with the invalid key and state `Deleted`; the mesh starts `SYNCHRONIZED` with sync count 0, no entities, no relations, and satisfies the invariant and symmetry |
| `Mesh.BulkData.UpdateDeletedEntitiesContainer` | packages/stk/stk_mesh/stk_mesh/base/BulkData.cpp:198-208 | the current-cycle list is empty and the reusable list is that list reversed in front of the old one; the free-list invariant holds |
| `Mesh.BulkData.FreePushFront` | packages/stk/stk_mesh/stk_mesh/base/BulkData.cpp:622-623 | pushing a live, non-reserved offset while its slot becomes `Deleted` keeps the free lists valid |
| `Mesh.BulkData.GenerateNextLocalOffset` | packages/stk/stk_mesh/stk_mesh/base/BulkData.cpp:395-446 | pops the front of the reusable list, or grows every array by one slot. The slot returned is fresh (no bucket, invalid key, `Created`, count 0) and was destroyed or new. Nothing else changes, and offsets freed this cycle are never reused. |
| `Mesh.BulkData.InitSlot` | packages/stk/stk_mesh/stk_mesh/base/BulkData.cpp:404-443 | a destroyed slot on no free list, or a new slot at the end, is reinitialised; every other slot is unchanged and the invariant holds |
| `Mesh.BulkData.ModificationBegin` | packages/stk/stk_mesh/stk_mesh/base/BulkData.cpp:265-304 | error once finalized; false and no change while `MODIFIABLE`. The first call only marks the metadata verified; later calls add one to the sync count and reset every repository entity to `Unchanged`. Success leaves the mesh `MODIFIABLE`. |
| `Mesh.BulkData.ResetEntityStates` | packages/stk/stk_mesh/stk_mesh/base/BulkData.cpp:292-296 | every entity of the repository becomes `Unchanged`; every other slot keeps its state |
| `Mesh.BulkData.ResetKeepsValid` | packages/stk/stk_mesh/stk_mesh/base/BulkData.cpp:292-296 | resetting the repository's entities keeps the invariant (they are all live) |
| `Mesh.BulkData.MarkModified` | packages/stk/stk_mesh/stk_mesh/base/BulkData.cpp:306-336 | nothing happens unless the entity is `Unchanged`; states only move from `Unchanged` to `Modified`; the start is marked; every newly marked entity is reachable upward, and no newly marked entity keeps an `Unchanged` upward neighbour |
| `Mesh.BulkData.MarkTable` | packages/stk/stk_mesh/stk_mesh/base/BulkData.cpp:324-334 | after the loop over one higher rank, every target of that list is no longer `Unchanged`, and reachability and closure are kept |
| `Mesh.BulkData.RequireGoodRankAndId` | packages/stk/stk_mesh/stk_mesh/base/BulkData.cpp:244-254 | passes exactly when the rank is below the rank count and not the face rank of a 2-D mesh, and the identifier is in 1..2^56-1; a bad rank is reported first |
| `Mesh.BulkData.InternalCreateEntity` | packages/stk/stk_mesh/stk_mesh/base/BulkData.cpp:495-497 | the returned entity is live under the key; `created` exactly when the key was new, in which case the repository gains only that key; other slots do not change |
| `Mesh.BulkData.DeclareEntity` | packages/stk/stk_mesh/stk_mesh/base/BulkData.cpp:482-524 | succeeds exactly when the mesh is modifiable, the rank and identifier are good, and the key does not belong to a placed entity owned elsewhere on a parallel mesh. Each error occurs exactly when its check fails, in the library's order: not modifiable, bad rank, bad id, owner mismatch. Errors leave the mesh unchanged. An existing entity keeps its state, count and owner and gains the parts plus the owned part. A new one gets exactly those parts, state `Created`, this process as owner and the current sync count. |
| `Mesh.BulkData.PlaceDeclared` | packages/stk/stk_mesh/stk_mesh/base/BulkData.cpp:505-519 | the entity gains the parts and the owned part; only a new entity gets an owner and sync count |
| `Mesh.BulkData.ChangeEntityId` | packages/stk/stk_mesh/stk_mesh/base/BulkData.cpp:532-546 | passes exactly when modifiable with a good rank and id; then the entity's key and the repository move to the new key, otherwise nothing changes |
| `Mesh.BulkData.InternalChangeEntityKey` | packages/stk/stk_mesh/stk_mesh/base/BulkData.cpp:548-552 | the slot records the new key and the repository maps it to the entity; the old key is gone and every other key is kept |
| `Mesh.BulkData.InternalDeclareRelation` | packages/stk/stk_mesh/stk_mesh/base/BulkDataRelation.cpp:65-81 | stores the relation in the list of the target's rank; `changed` exactly when it was new; the sync count is updated only then |
| `Mesh.BulkData.DeclareRelation` | packages/stk/stk_mesh/stk_mesh/base/BulkDataRelation.cpp:83-140 | the errors are not modifiable, destroyed end and wrong rank order, each exactly when its check fails and each leaving the mesh unchanged. On success (`RelationDeclared`) the table is the old one plus the relation and, when the connectivity map tracks it, the inverse. `to` gains exactly the parts `from` induces. When the relation was new, `from` takes the current sync count, and so does `to` when the inverse was stored. The newly modified entities are then exactly those reachable upward from `to` or `from` through `Unchanged` entities. When it was already stored, counts and states are unchanged. Symmetry is preserved, so the internal inverse error cannot occur on a symmetric mesh. |
| `Mesh.BulkData.DeclareCheckedRelation` | packages/stk/stk_mesh/stk_mesh/base/BulkDataRelation.cpp:103-139 | for a valid relation on a modifiable mesh the only possible failure is the inverse error, and a symmetric mesh rules it out. On success the effect is exactly `RelationDeclared`: table, parts, sync counts and the exact flood. |
| `Mesh.BulkData.MarkAndInduce` | packages/stk/stk_mesh/stk_mesh/base/BulkDataRelation.cpp:127-139 | when the forward relation was new, the newly modified entities are exactly those reachable from `to` or `from`; otherwise states are unchanged. `to` gains exactly the induced parts and no other bucket index changes. |
| `Mesh.BulkData.ChangeParts` | packages/stk/stk_mesh/stk_mesh/base/BulkDataRelation.cpp:137-139 | the entity's parts become old + add - remove; no other entity's parts change |
| `Mesh.BulkData.DeclareRelationPair` | packages/stk/stk_mesh/stk_mesh/base/BulkDataRelation.cpp:105-124 | the forward insert is new exactly when the relation was absent. On success the table is the declared pair. The sync count of `from` (and of `to` when the inverse is tracked) becomes the current one only when the forward insert was new. A symmetric mesh stays symmetric and cannot fail. |
| `Mesh.BulkData.MarkEndpoints` | packages/stk/stk_mesh/stk_mesh/base/BulkDataRelation.cpp:128-131 | both ends end up `Modified` if they were `Unchanged`. The newly modified entities are exactly those reachable upward from `to` or `from` through entities `Unchanged` before. States only move from `Unchanged` to `Modified`, and the marking is closed upward. |
| `Mesh.BulkData.DeclareOriented` | packages/stk/stk_mesh/stk_mesh/base/BulkDataRelation.cpp:152-166 | one iteration: equal ranks fail exactly when the two ends have the same rank. Otherwise the relation is declared from the higher to the lower ranked end, and the declared prefix (`ListDeclared`) grows by one. Any failure is that relation's check or the inverse error. |
| `Mesh.BulkData.DeclareRelations` | packages/stk/stk_mesh/stk_mesh/base/BulkDataRelation.cpp:144-167 | not modifiable is an error that changes nothing. Otherwise the outcome is the check of the first failing relation (same rank, or the checks of the oriented relation), or the inverse error. On success (`ListDeclared`) every relation is stored from the higher ranked end, and the table and the parts are the declarations folded over the list. Exactly the entities whose lists gained a relation carry the current sync count. For every relation of the list not stored before the call, the entity and the target are no longer `Unchanged`. Every newly modified entity is reachable from the entity or from a target, and the marking is closed upward. Symmetry is preserved. |
| `Mesh.BulkData.DeclareEach` | packages/stk/stk_mesh/stk_mesh/base/BulkDataRelation.cpp:152-166 | the loop stops at the first failure and otherwise runs over the whole list, keeping the declared prefix (`ListDeclared`, including the marked ends of every relation new to the table) |
| `Mesh.BulkData.ComputeKeepParts` | packages/stk/stk_mesh/stk_mesh/base/BulkDataRelation.cpp:212-231 | equals the parts induced, without supersets, through `to`'s other upward relations. The characterisation is in `Mesh.KeepRanksMembers`. |
| `Mesh.BulkData.ComputeDelParts` | packages/stk/stk_mesh/stk_mesh/base/BulkDataRelation.cpp:233-249 | the parts `from` induces (without supersets) through the relation minus the kept ones, or none when no list of `from` stores the relation |
| `Mesh.BulkData.RemoveInducedParts` | packages/stk/stk_mesh/stk_mesh/base/BulkDataRelation.cpp:199-254 | in serial, or when `to` is not shared, `to` loses exactly the parts induced only through the destroyed relation. Every other entity's bucket index is unchanged. |
| `Mesh.BulkData.DestroyRelationPair` | packages/stk/stk_mesh/stk_mesh/base/BulkDataRelation.cpp:256-266 | the forward removal reports a change exactly when the relation was stored. On a symmetric mesh the inverse removal succeeds, afterwards neither relation is stored, and symmetry is preserved. |
| `Mesh.BulkData.DestroyRelation` | packages/stk/stk_mesh/stk_mesh/base/BulkDataRelation.cpp:171-278 | the errors are as in declare, each leaving the mesh unchanged. On success (`RelationDestroyed`) the result says whether the relation was stored. The table loses it and its inverse. Only `to`'s parts may change: in serial, or when `to` is not shared, it loses exactly the parts induced only through that relation. When it was stored, the newly modified entities are exactly those reachable upward from `to` or `from`; otherwise the states are unchanged. Symmetry is preserved, and with a tracked inverse a symmetric mesh cannot give the inverse error. |
| `Mesh.BulkData.DestroyValidRelation` | packages/stk/stk_mesh/stk_mesh/base/BulkDataRelation.cpp:256-277 | removes the relation pair. When the forward relation was stored, the newly modified entities are exactly those reachable upward from `to` or `from`; otherwise no state changes. |
| `Mesh.BulkData.HasUpwardRelations` | packages/stk/stk_mesh/stk_mesh/base/BulkData.cpp:570-576 | true exactly when some list of a rank above the entity's own is non-empty |
| `Mesh.BulkData.DestroyEntityRelationAt` | packages/stk/stk_mesh/stk_mesh/base/BulkData.cpp:595-600 | one step of the inner loop. A relation to a destroyed entity is skipped. Otherwise the relation is destroyed and the cleared suffix reaches j. The effects so far stay within `Unhooked`. Errors are only those of `destroy_relation`, and none occurs when the mesh was symmetric and the entity `Destroyable`. |
| `Mesh.BulkData.DestroyLiveRelationAt` | packages/stk/stk_mesh/stk_mesh/base/BulkData.cpp:598-599 | `destroy_relation` on a relation to a live entity: the cleared suffix reaches j and the effects stay within `Unhooked`; on a symmetric mesh with a `Destroyable` entity it cannot fail |
| `Mesh.BulkData.DestroyEntityRelations` | packages/stk/stk_mesh/stk_mesh/base/BulkData.cpp:590-602 | succeeds, keeping symmetry, when the mesh is symmetric and every relation of the entity to a live entity leads down to a rank whose lists track the inverse. On success (`Unhooked`) the table lost only relations of the entity and their inverses, and both ends of every relation it lost are no longer `Unchanged`. Every newly modified entity is reached from the entity or an entity it relates to, and the marking is closed upward. Only related entities change buckets, and only by losing parts. No list of the entity keeps a relation to a live entity of that list's rank. |
| `Mesh.BulkData.DestroyRankRelations` | packages/stk/stk_mesh/stk_mesh/base/BulkData.cpp:592-601 | the inner loop over one rank, last position first: on success that rank's list and every higher one are cleared, within `Unhooked` |
| `Mesh.BulkData.RemoveEntity` | packages/stk/stk_mesh/stk_mesh/base/BulkData.cpp:609-623 | the comm-list handle is cleared; the entity loses its bucket, its relation lists and its repository key; it becomes `Deleted` and is pushed on the current-cycle free list |
| `Mesh.BulkData.DetachEntity` | packages/stk/stk_mesh/stk_mesh/base/BulkData.cpp:609-620 | the comm-list handle, bucket and relation lists of the entity go; the invariant holds |
| `Mesh.BulkData.RetireSlot` | packages/stk/stk_mesh/stk_mesh/base/BulkData.cpp:621-623 | the key leaves the repository, the slot becomes `Deleted` and its offset joins the current-cycle list |
| `Mesh.BulkData.DestroyEntity` | packages/stk/stk_mesh/stk_mesh/base/BulkData.cpp:556-627 | `NotModifiable`, with no change, on a synchronized mesh. Otherwise false, with no change, exactly when the entity is not live or still has an upward relation. True is returned whenever it is live without upward relations on a symmetric mesh and `Destroyable`. On true (`EntityDestroyed`) the entity is `Deleted`, unplaced, without lists, keyless in the repository and freed this cycle, and its comm-list handle is cleared. Other lists lose only relations leading to it. Every other repository key keeps its entity. Other states stay or become `Modified` when reached upward from the entity or an entity it related to. Every live entity of a valid rank that the entity's list of that rank held is no longer `Unchanged`. Only related entities lose parts. |
| `Mesh.BulkData.DestroyLiveEntity` | packages/stk/stk_mesh/stk_mesh/base/BulkData.cpp:578-626 | for a live entity without upward relations: true with the effects of `EntityDestroyed` (including the marked live entities it related to), or a `destroy_relation` error. The error cannot occur on a symmetric mesh when the entity is `Destroyable`. |
| `Mesh.BulkData.GenerateEntity` | packages/stk/stk_mesh/stk_mesh/base/BulkData.cpp:666-687 | bad rank and bad id each occur exactly when that check fails, and "key in use" exactly when the key is good and active. Success occurs exactly otherwise. Errors leave the mesh unchanged. On success a new live entity is placed in the owned part only, owned here, with the current sync count, and no other slot changes. |
| `Mesh.BulkData.GenerateNewEntities` | packages/stk/stk_mesh/stk_mesh/base/BulkData.cpp:631-690 | succeeds exactly when every key has a good rank and id, none is active, and the keys are distinct. On success there is one distinct entity per key, each live under its key, in the owned part only and owned here. Earlier keys keep their entities and no other key is added. |
| `Mesh.BulkData.GenerateNext` | packages/stk/stk_mesh/stk_mesh/base/BulkData.cpp:664-688 | one iteration succeeds exactly when the next key is good and not active. It then appends the next key's entity and keeps the generated-prefix property. |
| `Mesh.BulkData.InternalChangeOwnerInCommData` | packages/stk/stk_mesh/stk_mesh/base/BulkData.cpp:751-762 | when the comm map reports an owner change, only the comm-list entry with the key gets the new owner; otherwise the comm list is unchanged |
| `Mesh.BulkData.ChangeOwnerRank` | packages/stk/stk_mesh/stk_mesh/base/BulkData.cpp:753 | reports a change exactly when the key has comm info with a different owner, and then only that owner changes |
| `FieldData.FieldDataManager.constructor` | packages/stk/stk_mesh/stk_mesh/base/BulkData.cpp:141-154 | `m_num_fields` is -1, there is no meta data, and every rank has an empty list of blocks |
| `FieldData.FieldDataManager.NewBucket` | packages/stk/stk_mesh/stk_mesh/base/BulkData.cpp:771-842 | on the first call the meta data is sized. Every field then gets its new meta-data entry and the rank gets the laid-out, initialised block (NULL when no field has storage). The layout invariant holds. |
| `FieldData.FieldDataManager.SizeFields` | packages/stk/stk_mesh/stk_mesh/base/BulkData.cpp:781-809 | returns the bucket's total bytes and appends each field's sized entry, with no data pointer yet |
| `FieldData.FieldDataManager.LayOutFields` | packages/stk/stk_mesh/stk_mesh/base/BulkData.cpp:811-838 | builds the block `Layout` describes and sets every sized field's pointer to its offset |
| `FieldData.FieldDataManager.PlaceField` | packages/stk/stk_mesh/stk_mesh/base/BulkData.cpp:818-837 | one round: the offset advances by that field's span and the block and meta data extend to field i + 1 |
| `FieldData.FieldDataManager.InitField` | packages/stk/stk_mesh/stk_mesh/base/BulkData.cpp:826-835 | appends `capacity` copies of the initial value, or zeros when there is none |
| `FieldData.SlotsInitialised` | packages/stk/stk_mesh/stk_mesh/base/BulkData.cpp:817-835 | every slot of every field of a new bucket lies in the block, inside its field's storage, and holds the initial value or zeros |
| `FieldData.LayoutSlotsDisjoint` | packages/stk/stk_mesh/stk_mesh/base/BulkData.cpp:817-824 | the slots of two fields, or two slots of one field, never overlap |
| `FieldData.ZerosRepeat` | packages/stk/stk_mesh/stk_mesh/base/BulkData.cpp:834 | one memset of capacity × size zeros writes capacity zero slots |
| `FieldData.FreedMatchesAllocated` | packages/stk/stk_mesh/stk_mesh/base/BulkData.cpp:891-901 | `destroy_bucket_callback` hands back exactly the bytes `new_bucket_callback` allocated |
| `FieldData.FieldDataManager.CopyEntityFields` | packages/stk/stk_mesh/stk_mesh/base/BulkData.cpp:844-866 | every field with storage in both buckets has its two slots swapped in field order; the shapes are kept |
| `FieldData.FieldDataManager.SwapAllSlots` | packages/stk/stk_mesh/stk_mesh/base/BulkData.cpp:847-865 | the loop performs the swaps of all fields |
| `FieldData.FieldDataManager.SwapSlot` | packages/stk/stk_mesh/stk_mesh/base/BulkData.cpp:848-864 | one round extends the swapped prefix by field i |
| `FieldData.SwapRangesEffect` | packages/stk/stk_mesh/stk_mesh/base/BulkData.cpp:861-863 | `std::swap_ranges` on identical or disjoint ranges exchanges their bytes and leaves every disjoint region as it was |
| `FieldData.SwapSlotsApart` | packages/stk/stk_mesh/stk_mesh/base/BulkData.cpp:856-863 | a field's two slots are identical or disjoint |
| `FieldData.SwapSlotsSet` | packages/stk/stk_mesh/stk_mesh/base/BulkData.cpp:856-864 | after the loop each swapped field's destination slot holds the source's old bytes and vice versa: the callback exchanges, it does not copy |
| `FieldData.SwapSlotsFrame` | packages/stk/stk_mesh/stk_mesh/base/BulkData.cpp:847-865 | every region disjoint from the swapped slots keeps its bytes |
| `FieldData.FieldDataManager.RemoveEntitySlot` | packages/stk/stk_mesh/stk_mesh/base/BulkData.cpp:868-887 | the entity's slot of every field with storage is reset in field order; the shapes are kept |
| `FieldData.FieldDataManager.ResetAllSlots` | packages/stk/stk_mesh/stk_mesh/base/BulkData.cpp:871-886 | the loop performs the resets of all fields |
| `FieldData.FieldDataManager.ResetSlot` | packages/stk/stk_mesh/stk_mesh/base/BulkData.cpp:872-885 | one round extends the reset prefix by field i |
| `FieldData.ResetSlotsSet` | packages/stk/stk_mesh/stk_mesh/base/BulkData.cpp:876-885 | after the loop each such slot holds the field's initial value, or zeros |
| `FieldData.ResetSlotsFrame` | packages/stk/stk_mesh/stk_mesh/base/BulkData.cpp:871-886 | every region disjoint from the reset slots keeps its bytes |
| `FieldData.ReadOwnWrite` | packages/stk/stk_mesh/stk_mesh/base/BulkData.cpp:880 | reading a region just written with memcpy yields the bytes written |
| `FieldData.ReadOtherWrite` | packages/stk/stk_mesh/stk_mesh/base/BulkData.cpp:883 | writing one region leaves every disjoint region's bytes as they were |
| `FieldData.FieldDataManager.DestroyBucket` | packages/stk/stk_mesh/stk_mesh/base/BulkData.cpp:889-904 | a bucket without a block is left alone. Otherwise each field with a data pointer gets size 0 and NULL, the block becomes NULL, and the bytes handed back are the freed bytes. |
| `FieldData.FieldDataManager.UpdateFieldDataStates` | packages/stk/stk_mesh/stk_mesh/base/BulkData.cpp:906-932 | every rank's meta data becomes its rotation (`RotateAll`); before the first bucket nothing changes |
| `FieldData.FieldDataManager.RotateRank` | packages/stk/stk_mesh/stk_mesh/base/BulkData.cpp:912-929 | one rank's meta data becomes `RotateStates` of it |
| `FieldData.FieldDataManager.RotateGroup` | packages/stk/stk_mesh/stk_mesh/base/BulkData.cpp:918-928 | one run of states is rotated in every bucket where its first state has storage |
| `FieldData.FieldDataManager.RotateBucket` | packages/stk/stk_mesh/stk_mesh/base/BulkData.cpp:921-925 | the swap loop and the final assignment rotate the pointers of one bucket |
| `FieldData.RotateUndone` | packages/stk/stk_mesh/stk_mesh/base/BulkData.cpp:919-926 | the rotation loses no pointer: rotating back restores every field's meta data |
| `FieldData.RotatedShaped` | packages/stk/stk_mesh/stk_mesh/base/BulkData.cpp:911-929 | rotation keeps every field's sizes and strides, so the layout invariant holds |
| `FieldData.FieldDataManager.ReorderBuckets` | packages/stk/stk_mesh/stk_mesh/base/BulkData.cpp:934-951 | bucket m takes the block and every field's meta data that bucket `id_map[m]` had |
| `FieldData.FieldDataManager.PermuteVector` | packages/stk/stk_mesh/stk_mesh/base/BulkData.cpp:936-939 | entry m of the new vector is entry `id_map[m]` of the old |
| `FieldData.PermuteKeepsMultiset` | packages/stk/stk_mesh/stk_mesh/base/BulkData.cpp:936-950 | under a permutation no bucket's block or meta data is lost or duplicated |
| `FieldData.NewBucketShaped` | packages/stk/stk_mesh/stk_mesh/base/BulkData.cpp:775-841 | adding a bucket keeps one meta-data entry per field and bucket |
| `FieldData.ClearedShaped` | packages/stk/stk_mesh/stk_mesh/base/BulkData.cpp:893-902 | freeing a bucket keeps the layout invariant |
| `FieldData.ReorderedShaped` | packages/stk/stk_mesh/stk_mesh/base/BulkData.cpp:936-950 | renumbering buckets keeps the layout invariant |
| `ComputeOffsets.ExclusiveScan` | packages/tpetra/core/src/Tpetra_Details_computeOffsets.hpp:114-123 | the scan starts at 0, each entry is the previous one plus its count, and the last entry is the sum of all counts |
| `ComputeOffsets.ExclusiveScanIsPrefixSum` | packages/tpetra/core/src/Tpetra_Details_computeOffsets.hpp:246-252 | entry i of the scan is the sum of the counts before i |
| `ComputeOffsets.ComputeOffsetsFromCounts` | packages/tpetra/core/src/Tpetra_Details_computeOffsets.hpp:271-345 | an empty `ptr` returns 0 untouched, and `counts.size() >= ptr.size()` is an `invalid_argument` that writes nothing. Otherwise `ptr[0..|counts|]` holds the exclusive scan, later entries are untouched, and the total is the sum of the counts. |
| `ComputeOffsets.ConstantIsScanOfRepeated` | packages/tpetra/core/src/Tpetra_Details_computeOffsets.hpp:351-355 | the constant-count offsets equal the scan of n - 1 equal counts |
| `ComputeOffsets.ComputeOffsetsFromConstantCount` | packages/tpetra/core/src/Tpetra_Details_computeOffsets.hpp:373-424 | an empty `ptr` returns 0 untouched; otherwise `ptr[i] = i * count` for every entry and the total is `(ptr.size() - 1) * count` |

## Left out

- Parallel collectives are not modelled: the barrier, metadata commit, parallel consistency checks, `modification_end` and the distributed index. `Mesh.BulkData.GenerateNewEntities` takes the keys the distributed index would generate as input.
- `destroy_entity` does not model `remove_entity_callback`, `register_removed_key`, tracing, or the `m_check_invalid_rels` flag. The field side of `remove_entity_callback` is modelled separately as `FieldData.FieldDataManager.RemoveEntitySlot`.
- Buckets and partitions are not modelled. An entity's bucket is identified with its part set (`MeshIndex`), and `internal_change_entity_parts` becomes a set update.
- `Bucket::declare_relation` / `destroy_relation` are not part of this model. Their effect is given by `DeclareInList` and `DestroyInList` on relation lists kept in a map.
- `induced_part_membership` is two parameters, because its callers pass different supersets flags. `induces` is the call `declare_relation` makes (supersets looked at, the default). `inducesExact` is the call `destroy_relation` makes (supersets not looked at). Its code is not part of this model, so nothing relates the two.
- Mesh.BulkData.ModificationBegin: the call of `set_mesh_on_fields` while the sync count is 0 is not modelled. Fields carry no back pointer to their mesh in this model.
- `EntityCommMap::change_owner_rank`'s code is not part of this model. `ChangeOwnerRank` states the behaviour its caller relies on.
- `internal_sync_comm_list_owners` is not modelled: it reads owners through entity handles of the comm list, and the comm list's entity handles are not tied to slots in this model.
- `internal_update_fast_field_data` after `update_field_data_states` is not modelled.
- Mesh.BulkData.MarkModified: the recursion follows a related entity only when its rank is strictly higher than the current one. In the library each list of a higher rank holds only entities of that rank, so this is the same walk. The guard makes termination evident.
- Mesh.BulkData.DestroyEntity: states that symmetry of relations is preserved only for each `destroy_relation` step (`DestroyRelation`), not for the whole call, because removing the entity's lists also drops relations whose inverses are untracked.
- Mesh.BulkData.DestroyEntity: the relation table after success is stated as a frame (`DestroyFrame`), not as the fold of `destroy_relation` over the entity's lists. The entity's lists are gone, and other lists lose only relations leading to the entity; which of those go is not stated. Likewise, only the entities it related to may lose parts, but which parts is not stated for the whole call. Both are exact for each `destroy_relation` step (`DestroyRelation`).
- Mesh.BulkData.DestroyEntity: the marking of the entities the destroyed entity related to is promised for relations filed in the list of their target's rank, for ranks below the rank count. The table invariant does not record that every list holds only targets of its own rank, which the source keeps by construction; in the model a relation filed elsewhere would not be found by `destroy_relation`, which looks in the list of the target's rank.
- Mesh.BulkData.DestroyEntity: success is promised for a symmetric mesh and a `Destroyable` entity. When those do not hold, the contract states only which errors may occur, not which one does.
- Mesh.BulkData.DestroyEntityRelations: the cleared-list property covers relations to live entities of the list's own rank. A relation in a list of another rank is passed to `destroy_relation`, whose error is passed on.
- Mesh.OwnerIn: an entity without a recorded owner reads as process 0.
- Mesh.BulkData.ChangeEntityId: requires a serial mesh (the library's `ThrowAssertMsg`) and an entity that is live and recorded in the repository under its key.
- Field storage is not allocated. Each bucket's block is built by appending bytes, and `DestroyBucket` returns the byte count it would hand to the allocator.
- `m_field_meta_data` is a flat vector indexed `m_num_fields * rank + field`. It is held as nested sequences indexed [rank][field][bucket].
- FieldData.FieldDataManager.CopyEntityFields: the equal-size `ThrowAssertMsg` is a precondition (`SwapsReady`), and so is the requirement that every swapped slot lies in its block.
- FieldData.FieldDataManager.NewBucket: requires that each restriction covers the stride the field's rank reads (`Covers`), and that each initial value holds at least one slot's bytes (`InitsFit`).
- FieldData.FieldDataManager.UpdateFieldDataStates: requires that the fields come in runs of states (`StateGroupsFrom`), as the meta data declares them.
- `std::swap_ranges` is modelled as one step on the whole range (`SwapRanges`), not byte by byte.
- ComputeOffsets.ComputeOffsetsFromCounts: requires that every prefix sum fits in 64 bits, which the library documents and does not check. Overflow is not modelled.
- ComputeOffsets.ComputeOffsetsFromConstantCount: requires that `(ptr.size() - 1) * count` fits in 64 bits, for the same reason.
- Kokkos views, memory spaces, the copy of `counts` to the device and the parallel execution of the scan are not modelled. The scan is a sequential loop, and exceptions thrown inside `parallel_scan` are not modelled.
- Framework (SIERRA_MIGRATION) arrays, the coordinate field, the bulk-data registry and tracing are not modelled.
