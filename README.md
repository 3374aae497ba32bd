# Group tree cache (GroupsSingle) in Dafny

This project models `GroupsSingle` from `group.go`: the process-wide, in-memory copy of an
organization's group tree. Every group has an id, a name, a parent id (`Nil` at the top), a
depth level, and flags marking the main group, active groups and office groups. The cache
holds two lists:

- `listBatch` mirrors the stored groups table.
- `createBatch` queues the groups that changed since the last flush, one entry per id.
  `CreateFromBatch` writes this queue back.

The model is split by concern:

| module | file | what it holds |
|---|---|---|
| `Groups` | groups.dfy | The group record, the error kinds, and the read-only scans over a list: lookup by id, children of a parent, the main group, an office group. Also the list updates the cache applies: find-or-replace, splice-out, keep-main. |
| `Hierarchy` | hierarchy.dfy | The parent graph as (id, parent) links. `Acyclic` (a rank that grows from child to parent) and `TreeShaped` (unique ids, acyclic). `Hops`, the number of parent steps from a group up to an ancestor. `Below(g, x)` (x lies strictly under g) and `Branch` are defined from it. |
| `Traversal` | traversal.dfy | getTreeBottomElements / compileTreeBottomElements, and proofs that they list exactly the groups below the start, each once, in pre-order. |
| `Breadcrumb` | breadcrumb.dfy | GetTreeTop / CompileTreeTop, and a proof that the breadcrumb is the resolvable ancestor chain of the group, root first, then the device entry. |
| `ConsistencyGuard` | guard.dfy | CheckParentId, and a proof of the exact set of moves it accepts. |
| `DepthSpec` | depth.dfy | The depth recalculation stated on values: the new depth of every group and the queue it leaves. |
| `RecalcSteps` | recalc.dfy | The loop invariant of setGroupDepth and the lemmas that carry it from step to step. |
| `Cache` | cache.dfy | The `GroupsSingle` class: fields `listBatch` and `createBatch`, and one method per operation that changes them. It also holds the removal loop of ResetGroupsTable as written (see Findings). |

Storage calls are not modelled. Where the source calls storage, the method takes the call's
outcome as a parameter: `ok` says whether the call succeeded, and `stored` is what a fresh read
of the groups table returns.

Localized error strings become the `GroupError` and `Rejection` datatypes.

Two behaviours of the code are worth knowing up front:

- ResetGroupsTable's in-place removal loop indexes past the end of the shrinking list and fails
  (group.go:129-133, see Findings). `Cache.ResetLoopAsWritten` models that loop as written; the
  cache method `Cache.GroupsSingle.ResetGroupsTable` implements the intended filter.
- When relinking, CheckParentId first rejects a tree with no main group (group.go:242-246).

The source assumes, but never checks, that the cache forms a tree. The traversals,
the breadcrumb and the depth recalculation recurse along `ParentId`. The model states that
assumption as `Acyclic` / `TreeShaped` preconditions. The source itself recurses without end
only in some cases. getTreeBottomElements, setGroupDepth and CheckParentId diverge when the start
lies on a cycle. CompileTreeTop diverges when the group's ancestor chain reaches one. The model
is stricter: it excludes any list with a cycle anywhere, including cycles that the source never
reaches from the group it starts at.

## Model

| member | source | states |
|---|---|---|
| Groups.IndexOfId | group.go:104 | The first index whose group has the id, or -1 exactly when no group has it (the IndexFunc scan by id). |
| Groups.IndexOfUnique | group.go:144-150 | When ids are unique, the scan for the id of the group at index i finds i. |
| Groups.GetBatchElementById | group.go:144-150 | An unknown id gives the zero group. A known id gives the first group in the list that carries it. |
| Groups.ChildrenOf | group.go:152-160 | A group is in the result exactly when it is in the list and its parent is the given id. |
| Groups.ChildrenOfAppend | group.go:152-160 | Scanning a concatenation concatenates the results, so the children keep their list order. |
| Groups.ChildrenOfEmpty | group.go:152-160 | The result is empty exactly when no group has that parent. |
| Groups.ChildrenOfUnique | group.go:152-160 | The children of a list with unique ids have unique ids. |
| Groups.IndexOfMain | group.go:164 | The index of the first main group, or -1 exactly when there is none. |
| Groups.GetMainGroupUuid | group.go:162-170 | The id of the first main group. Otherwise the NoMainGroup error, exactly when there is no main group. |
| Groups.IndexOfOfficeGroup | group.go:174-176 | The index of the first office group of the office, or -1 exactly when there is none. |
| Groups.GetOfficeGroupUuid | group.go:172-182 | The id of the first office group of the office. Otherwise the NoOfficeGroup error, exactly when there is none. |
| Groups.Upsert | group.go:188-193 | A known id: same length, the first entry with that id is replaced, every other entry unchanged. An unknown id: the group is appended after the unchanged list. |
| Groups.UpsertKeepsUnique | group.go:195-200 | Find-or-replace keeps the queue at one entry per id. |
| Groups.UpsertThenLookup | group.go:184-203 | After an update, looking up the group's id returns that group, whether or not ids were unique. |
| Groups.UpsertLookupOther | group.go:184-203 | An update leaves the lookup of every other id unchanged. |
| Groups.RemoveAt | group.go:114 | Splicing out index k shifts every later entry down by one and keeps every earlier entry. |
| Groups.RemoveFoundGone | group.go:102-118 | With unique ids, after the delete the id no longer resolves, ids stay unique, and every other id resolves as before. |
| Groups.KeepMain | group.go:120-138 | The reset's intended result holds exactly the main groups of the list. |
| Groups.KeepMainCount | group.go:129-133 | The intended reset removes exactly as many entries as there are non-main groups. |
| Groups.KeepMainAppend | group.go:129-133 | Filtering commutes with concatenation, so the main groups keep their order. |
| Groups.KeepMainAllMain | group.go:129-133 | A list of main groups only is left as it is. |
| Groups.KeepMainButLast | group.go:129-133 | Main groups followed by one non-main group: exactly that last group is dropped. |
| Traversal.LinkParentOfGroup | group.go:316-328 | Looking up a group and taking its parent agrees with the parent link of its id, and an unknown id has no parent link. |
| Traversal.Forest | group.go:340-345 | Every id listed for a run of children is the id of a group in the list. |
| Traversal.CompileTreeBottomElements | group.go:350-368 | Every id listed below a group is the id of a group in the list. Nothing is listed below Nil. |
| Traversal.GetTreeBottomElements | group.go:331-348 | Every id listed is the id of a group in the list. |
| Traversal.ForestHasChild | group.go:340-345 | Every child in the run is listed. |
| Traversal.ForestSound | group.go:340-345 | Everything listed for the children of a group lies below that group, on the branch of one of those children. |
| Traversal.SubtreeSound | group.go:350-368 | Everything compileTreeBottomElements lists lies below its start. |
| Traversal.DescendantsComplete | group.go:331-368 | Every group below the start is listed. |
| Traversal.DescendantsExact | group.go:331-368 | An id is listed exactly when it lies below the start, and the start itself is never listed. |
| Traversal.ForestNoDup | group.go:340-345 | The listing for a run of children with unique ids has no repeats. |
| Traversal.DescendantsNoDup | group.go:331-368 | getTreeBottomElements lists every descendant once. |
| Traversal.ForestPreOrder | group.go:340-345 | In the listing for a run of children, every group comes before all groups below it. |
| Traversal.DescendantsPreOrder | group.go:331-368 | getTreeBottomElements is a pre-order: every group is listed before its own descendants. |
| Breadcrumb.CompileTreeTop | group.go:310-329 | The walk up only prepends, so the breadcrumb so far stays at the end. |
| Breadcrumb.DeviceEntry | group.go:299-302 | The device entry carries the device id; its name is the device name, a space, then the host in parentheses, so both can be read back from it. |
| Breadcrumb.GetTreeTop | group.go:284-308 | An unknown group gives an empty breadcrumb. A known group gives one ending in that group's entry, then the device entry. |
| Breadcrumb.ChainEnds | group.go:310-329 | The ancestor chain is empty exactly at Nil or an unknown id. It ends at the group, and its first entry's parent cannot be resolved. |
| Breadcrumb.ChainIsAncestry | group.go:310-329 | Entry k of a group's chain is a known group exactly (length − 1 − k) parent steps above it. |
| Breadcrumb.CompileTreeTopChain | group.go:310-329 | The prepending walk puts the chain of the parent id, with names, in front of the breadcrumb so far. |
| Breadcrumb.GetTreeTopIsChain | group.go:284-308 | For a known group, the breadcrumb is its ancestor chain root first, the group itself with names, then the device entry. |
| ConsistencyGuard.IndexOfActive | group.go:264 | The index of the first active group with the id, or -1 exactly when there is none. |
| ConsistencyGuard.CheckParentId | group.go:238-282 | Each rejection names a true condition, and the first condition that holds decides, in the source's order. For a relink: a missing main group, then a move into the main group. Then, for both kinds of check, a group as its own parent, a target that is missing or inactive, and a target below the group. |
| ConsistencyGuard.CheckParentIdVerdict | group.go:238-282 | On a tree, a move is accepted exactly when all of these hold: the target differs from the group, the target is an active group, and the target does not lie below the group. For a relink, a main group must also exist and not be the target. |
| DepthSpec.Relevelled | group.go:215-221 | The recalculation changes at most the depth of a group, never its id or parent. |
| DepthSpec.Relevel | group.go:211-236 | The recalculated list has the same length, and each entry is the recalculated version of the same entry before. |
| DepthSpec.RelevelKeepsLinks | group.go:211-236 | The recalculation leaves every id and parent, in order, as it was. |
| DepthSpec.RelevelDepthConsistent | group.go:205-236 | After the recalculation, a direct child of the start has the given depth. Every deeper group has its parent's new depth plus one. Groups not below the start are unchanged. |
| DepthSpec.PendDepth | group.go:223-228 | Queueing one depth change: when the queue has an entry with the group's id, the first such entry takes the new depth and keeps its other fields, the length and all other entries are unchanged. Otherwise the group is appended. |
| DepthSpec.RecalcFromGroupDepths | group.go:205-236 | RecalcGroupsDepth from a known group: that group and every group not below it keep their entries, and every group below it is one level deeper than its parent's new depth. |
| DepthSpec.PendDepthSets | group.go:223-228 | After queueing a depth change, the queue has an entry for the group, and it carries the new depth. |
| DepthSpec.PendDepthOther | group.go:223-228 | Queueing a depth change leaves the entry found for every other id unchanged. |
| DepthSpec.PendAllKeepsUnique | group.go:223-228 | A series of queued depth changes keeps the queue at one entry per id. |
| DepthSpec.PendAllOnlyDepth | group.go:227 | An entry that was already queued keeps its position and every field except its depth. |
| DepthSpec.PendAllRecords | group.go:223-228 | Every queued group ends up in the queue, with the depth of its last queued version. |
| DepthSpec.PendingUnique | group.go:211-236 | The groups the recalculation queues carry ids of the listing and, since that listing has no repeats, no id twice. |
| DepthSpec.DepthQueueRecordsMoves | group.go:205-236 | Every group whose depth changes has a queue entry afterwards, carrying its new depth. |
| RecalcSteps.SetOwnDepth | group.go:217-221 | Setting one child's depth changes that entry's depth only. The links and every other entry stay as they were. |
| RecalcSteps.ForestSnoc | group.go:340-345 | Appending a child to the run appends the child and its subtree to the listing. |
| RecalcSteps.FinishProgress | group.go:213-235 | When the loop ends, the list is the recalculated list, and the queue has the changes queued in getTreeBottomElements order. |
| RecalcSteps.ChildIteration | group.go:215-233 | One step over a child (its own update, then the recursive call below it) keeps the loop invariant. |
| RecalcSteps.RecalcFromRoot | group.go:205-209 | Starting one level below the group found for the id yields the recalculated list and the depth queue. |
| Cache.ResetLoopAsWritten | group.go:129-133 | The loop as written fails (index out of range) exactly when a group other than the last is not a main group. Otherwise it leaves exactly the main groups. |
| Cache.ResetLoopAsWrittenPanics | group.go:129-133 | On a non-main group followed by the main group, the loop as written fails. |
| Cache.GroupsSingle.constructor | group.go:37-49 | The cache starts as the stored groups with an empty queue. |
| Cache.GroupsSingle.Reload | group.go:59-69 | The list becomes the fresh read. Queued groups stay. |
| Cache.GroupsSingle.CreateFromBatch | group.go:71-100 | Empty queue: nothing changes. Failed write: the list is reloaded, the queue dropped and the failure reported. Successful write: the queue is emptied. |
| Cache.GroupsSingle.DeleteById | group.go:102-118 | Unknown id: NotFound, nothing changes. Failed delete: the failure is reported, nothing changes. Otherwise the first entry with the id is spliced out. The queue is never touched. |
| Cache.GroupsSingle.ResetGroupsTable | group.go:120-138 | Failed delete: the failure is reported, nothing changes. Otherwise the list keeps exactly its main groups, in order. |
| Cache.GroupsSingle.GetBatchElementsByParentId | group.go:152-160 | The loop returns exactly the groups with that parent, in list order. |
| Cache.GroupsSingle.UpdateBatch | group.go:184-203 | Both lists get the group by find-or-replace, and the queue keeps one entry per id. |
| Cache.GroupsSingle.RecalcGroupsDepth | group.go:205-209 | The depths are renumbered from the looked-up group's depth plus one. The ids and parents stay as they were. The queue gains exactly the changed groups, in getTreeBottomElements order, with their new depths. |
| Cache.GroupsSingle.SetChildDepth | group.go:217-231 | If the child's depth differs, it is set and queued: a queued entry for its id takes the new depth, otherwise the child is appended. |
| Cache.GroupsSingle.SetGroupDepth | group.go:211-236 | The loop with its recursion gives the recalculated list, with unchanged links. It queues the moved groups in getTreeBottomElements order and keeps one entry per id. |

## Left out

- Storage (the database handle, `OPTIMIZE TABLE`, the ordered read by depth level): each call is a parameter giving its outcome (`ok`) and what it reads back (`stored`). The `optimize` flag of CreateFromBatch only triggers storage work and is not a parameter.
- `log.Fatal` on a failed read: the model has no process exit. A failed read is not distinguished from a successful one.
- The mutex and `sync.Once` (Lock, Unlock, GetInstance's one-time initialisation), and concurrency in general. This includes the paths that return while still holding the lock: CreateFromBatch with an empty queue or a failed write (group.go:75-77, 88), DeleteById on a failed delete (111-113) and ResetGroupsTable on a failed delete (125-127). DeleteById also scans the list before taking the lock.
- GetBatch (group.go:140-142) returns the cached slice itself. The model has no aliasing between that slice and the cache.
- Cache.GroupsSingle.RecalcGroupsDepth: `DepthLevel` is an `int32` in the source; the model uses unbounded integers and does not model wrap-around at 2^31 - 1.
- Cache.GroupsSingle.SetGroupDepth: requires unique ids and an acyclic parent graph. The source recurses without end only when the start lies on a cycle; the model excludes any list with a cycle anywhere. On duplicate ids the model says nothing.
- Cache.GroupsSingle.RecalcGroupsDepth: requires unique ids and an acyclic parent graph, for the same reason.
- Breadcrumb.GetTreeTop: requires an acyclic parent graph. CompileTreeTop in the source recurses without end only when the group's ancestor chain reaches a cycle; the model excludes any list with a cycle anywhere.
- Traversal.GetTreeBottomElements: requires an acyclic parent graph. The source recurses without end only when the start lies on a cycle; the model excludes any list with a cycle anywhere.
- ConsistencyGuard.CheckParentId: requires an acyclic parent graph, because its descendant test calls getTreeBottomElements. The source recurses without end only when the group being moved lies on a cycle; the model excludes any list with a cycle anywhere.
- `TreeBottomElement` is a struct holding only an id; the model lists the ids directly.
- The localized message strings of CheckParentId, DeleteById, GetMainGroupUuid and GetOfficeGroupUuid become the `Rejection` and `GroupError` variants. The office name in the GetOfficeGroupUuid message is not modelled.
- types.go holds HTTP handlers (`EditTypes`, `UpdateSensorsByType`) and is not part of this model. The `Group` record comes from the `entity` package, which is not part of this model beyond the group fields the cache reads and writes.
- Lists holding a group whose id is `Nil`: `Acyclic` rules such a group out, so every member that requires `Acyclic` or `TreeShaped` excludes lists holding a Nil-id group. The Nil check of compileTreeBottomElements (group.go:352-354) is modelled, but under those requirements it only fires for the Nil start id, never for a Nil-id group in the list.
- Nothing proves that a reparent accepted by CheckParentId keeps the parent graph acyclic: the source never performs the move itself.

## Findings

| source | as written | input that shows it | evidently intended | confidence | as-written member | corrected member |
|---|---|---|---|---|---|---|
| group.go:129-133 | The loop ranges over the indices of the original list while splicing entries out of the list it indexes. After a removal, the entry that moves into the freed slot is skipped, and the last indices lie past the end, so indexing panics. | The cache [non-main group, main group]: index 0 is removed, and index 1 is then out of range. | Remove every non-main group from the cache and keep the main groups in order, as the storage delete on line 124 does. | not executed | Cache.ResetLoopAsWritten, Cache.ResetLoopAsWrittenPanics | Cache.GroupsSingle.ResetGroupsTable, Groups.KeepMain, Groups.KeepMainCount |
