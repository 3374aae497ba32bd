/**
 * Cache: GroupsSingle, the in-memory copy of the groups table. `listBatch` mirrors the
 * stored groups; `createBatch` collects the groups that changed since the last flush, one
 * entry per id, for CreateFromBatch to write back. The outcome of each storage call is a
 * parameter: `ok` says whether the call succeeded, `stored` is what a fresh read returns.
 */
module Cache {
  import opened Groups
  import opened Hierarchy
  import opened Traversal
  import opened DepthSpec
  import opened RecalcSteps

  /**
   * The removal loop of ResetGroupsTable as written: it ranges over the indices of the
   * list it started with while splicing entries out of the list it indexes, so after a
   * removal the entry that moves into the freed slot is skipped and the last indices
   * lie past the end. None stands for the index-out-of-range panic: it happens exactly
   * when some group other than the last one is not a main group.
   */
  method ResetLoopAsWritten(l: seq<Group>) returns (r: Option<seq<Group>>)
    ensures r.None? <==> exists k :: 0 <= k < |l| - 1 && !l[k].Main
    ensures r.Some? ==> r.value == KeepMain(l)
  {
    var cur := l;
    var idx := 0;
    while idx < |l|
      invariant 0 <= idx <= |l|
      invariant || (cur == l && forall k :: 0 <= k < idx ==> l[k].Main)
                || (0 < idx == |l| && cur == l[..|l| - 1] && !l[|l| - 1].Main && forall k :: 0 <= k < |l| - 1 ==> l[k].Main)
                || (idx < |l| && |cur| < |l| && exists k :: 0 <= k < |l| - 1 && !l[k].Main)
    {
      if idx >= |cur| {
        return None;
      }
      if !cur[idx].Main {
        cur := cur[..idx] + cur[idx + 1..];
      }
      idx := idx + 1;
    }
    if cur == l {
      KeepMainAllMain(l);
    } else {
      KeepMainButLast(l);
    }
    return Some(cur);
  }

  /** The smallest cache the reset as written fails on: a non-main group, then the main group. */
  method ResetLoopAsWrittenPanics() returns (r: Option<seq<Group>>)
    ensures r == None
  {
    var office := Group(1, "office", 2, 2, false, true, true, 3);
    var main := Group(2, "main", Nil, 1, true, true, false, Nil);
    r := ResetLoopAsWritten([office, main]);
    assert ![office, main][0].Main;
  }

  class GroupsSingle {
    var listBatch: seq<Group>
    var createBatch: seq<Group>

    /** The pending queue holds at most one entry per group. */
    ghost predicate Valid()
      reads this
    {
      UniqueIds(createBatch)
    }

    /** GetInstance: the cache starts as the stored groups with nothing pending. */
    constructor (stored: seq<Group>)
      ensures Valid()
      ensures listBatch == stored && createBatch == []
    {
      listBatch := stored;
      createBatch := [];
    }

    /** Reload: replace the cached groups by a fresh read; pending groups stay queued. */
    method Reload(stored: seq<Group>)
      requires Valid()
      modifies this
      ensures Valid()
      ensures listBatch == stored && createBatch == old(createBatch)
    {
      listBatch := stored;
    }

    /**
     * CreateFromBatch: write the pending groups. Nothing pending: nothing happens. A
     * failed write reloads the cache from storage, drops the queue and reports the
     * failure; a successful one empties the queue.
     */
    method CreateFromBatch(ok: bool, stored: seq<Group>) returns (err: Option<GroupError>)
      requires Valid()
      modifies this
      ensures Valid()
      ensures old(createBatch) == [] ==> err == None && listBatch == old(listBatch) && createBatch == []
      ensures old(createBatch) != [] && !ok ==> err == Some(StoreFailure) && listBatch == stored && createBatch == []
      ensures old(createBatch) != [] && ok ==> err == None && listBatch == old(listBatch) && createBatch == []
    {
      if |createBatch| < 1 {
        return None;
      }
      if !ok {
        listBatch := stored;
        createBatch := [];
        return Some(StoreFailure);
      }
      createBatch := [];
      return None;
    }

    /**
     * DeleteById: an unknown id is refused; otherwise the group is deleted from storage
     * and, if that succeeds, spliced out of the cache.
     */
    method DeleteById(id: Uuid, ok: bool) returns (err: Option<GroupError>)
      requires Valid()
      modifies this
      ensures Valid()
      ensures createBatch == old(createBatch)
      ensures !HasId(old(listBatch), id) ==> err == Some(NotFound) && listBatch == old(listBatch)
      ensures HasId(old(listBatch), id) && !ok ==> err == Some(StoreFailure) && listBatch == old(listBatch)
      ensures HasId(old(listBatch), id) && ok ==>
        err == None && listBatch == RemoveAt(old(listBatch), IndexOfId(old(listBatch), id))
    {
      var idx := IndexOfId(listBatch, id);
      if idx == -1 {
        return Some(NotFound);
      }
      if !ok {
        return Some(StoreFailure);
      }
      listBatch := listBatch[..idx] + listBatch[idx + 1..];
      return None;
    }

    /**
     * ResetGroupsTable: delete every non-main group from storage and, if that succeeds,
     * from the cache, keeping the main groups in order.
     */
    method ResetGroupsTable(ok: bool) returns (err: Option<GroupError>)
      requires Valid()
      modifies this
      ensures Valid()
      ensures createBatch == old(createBatch)
      ensures !ok ==> err == Some(StoreFailure) && listBatch == old(listBatch)
      ensures ok ==> err == None && listBatch == KeepMain(old(listBatch))
    {
      if !ok {
        return Some(StoreFailure);
      }
      var l := listBatch;
      var kept := [];
      var idx := 0;
      while idx < |l|
        invariant 0 <= idx <= |l|
        invariant kept == KeepMain(l[..idx])
        invariant unchanged(this)
      {
        KeepMainAppend(l[..idx], [l[idx]]);
        assert l[..idx + 1] == l[..idx] + [l[idx]];
        assert [l[idx]][1..] == [];
        if l[idx].Main {
          kept := kept + [l[idx]];
        }
        idx := idx + 1;
      }
      assert l[..idx] == l;
      listBatch := kept;
      return None;
    }

    /** GetBatchElementsByParentId: the direct children of `id`, in list order. */
    method GetBatchElementsByParentId(id: Uuid) returns (groups: seq<Group>)
      ensures groups == ChildrenOf(listBatch, id)
      ensures forall g :: g in groups <==> g in listBatch && g.ParentId == id
    {
      groups := [];
      var idx := 0;
      while idx < |listBatch|
        invariant 0 <= idx <= |listBatch|
        invariant groups == ChildrenOf(listBatch[..idx], id)
      {
        var g := listBatch[idx];
        ChildrenOfAppend(listBatch[..idx], [g], id);
        assert listBatch[..idx + 1] == listBatch[..idx] + [g];
        assert [g][1..] == [];
        if g.ParentId == id {
          groups := groups + [g];
        }
        idx := idx + 1;
      }
      assert listBatch[..idx] == listBatch;
    }

    /**
     * UpdateBatch: put the group into the cache and into the pending queue, replacing
     * the entry with its id where there is one and appending it otherwise.
     */
    method UpdateBatch(group: Group)
      requires Valid()
      modifies this
      ensures Valid()
      ensures listBatch == Upsert(old(listBatch), group)
      ensures createBatch == Upsert(old(createBatch), group)
    {
      var idx := IndexOfId(listBatch, group.Id);
      if idx == -1 {
        listBatch := listBatch + [group];
      } else {
        listBatch := listBatch[idx := group];
      }
      UpsertKeepsUnique(createBatch, group);
      idx := IndexOfId(createBatch, group.Id);
      if idx == -1 {
        createBatch := createBatch + [group];
      } else {
        createBatch := createBatch[idx := group];
      }
    }

    /**
     * RecalcGroupsDepth: renumber the depths below a group from its own depth plus one.
     * An unknown id is looked up as the zero group, so the renumbering starts from the
     * groups whose parent is Nil, at depth 1.
     */
    method RecalcGroupsDepth(rootGroupId: Uuid)
      requires Valid() && TreeShaped(listBatch)
      modifies this
      ensures Valid() && TreeShaped(listBatch) && Links(listBatch) == Links(old(listBatch))
      ensures listBatch == Relevel(old(listBatch),
        GetBatchElementById(old(listBatch), rootGroupId).Id,
        GetBatchElementById(old(listBatch), rootGroupId).DepthLevel + 1)
      ensures createBatch == DepthQueue(old(listBatch), old(createBatch),
        GetBatchElementById(old(listBatch), rootGroupId).Id,
        GetBatchElementById(old(listBatch), rootGroupId).DepthLevel + 1)
    {
      ghost var l0 := listBatch;
      ghost var q0 := createBatch;
      var rootGroup := GetBatchElementById(listBatch, rootGroupId);
      var p := rootGroup.Id;
      var d := rootGroup.DepthLevel + 1;
      SetGroupDepth(p, d, l0);
      RecalcFromRoot(l0, q0, rootGroupId, p, d, listBatch, createBatch);
    }

    /**
     * The locked block of setGroupDepth for the child at idx: if its depth differs from
     * `depth`, set it, and queue the change (a pending entry with its id takes the new
     * depth; otherwise the group is queued).
     */
    method SetChildDepth(idx: nat, depth: int)
      requires Valid() && idx < |listBatch|
      modifies this
      ensures Valid()
      ensures listBatch == SetOwnDepth(old(listBatch), idx, depth)
      ensures createBatch == if old(listBatch)[idx].DepthLevel != depth
        then PendDepth(old(createBatch), listBatch[idx]) else old(createBatch)
    {
      if listBatch[idx].DepthLevel != depth {
        listBatch := listBatch[idx := listBatch[idx].(DepthLevel := depth)];
        var cidx := IndexOfId(createBatch, listBatch[idx].Id);
        if cidx == -1 {
          createBatch := createBatch + [listBatch[idx]];
        } else {
          createBatch := createBatch[cidx := createBatch[cidx].(DepthLevel := depth)];
        }
        PendDepthKeepsUnique(old(createBatch), listBatch[idx]);
      }
    }

    /**
     * setGroupDepth: give every child of `parent` the depth `depth` (queueing it when that
     * changes its depth), then recurse into the child with `depth + 1`. `ref` is the list
     * as it was when the recalculation began: its shape never changes.
     */
    method SetGroupDepth(parent: Uuid, depth: int, ghost ref: seq<Group>)
      requires Valid() && TreeShaped(ref) && Links(listBatch) == Links(ref)
      modifies this
      ensures Valid() && Links(listBatch) == Links(ref)
      ensures listBatch == Relevel(old(listBatch), parent, depth)
      ensures createBatch == PendAll(old(createBatch), Pending(old(listBatch), parent, depth, GetTreeBottomElements(ref, parent)))
      decreases Down(Links(ref), parent)
    {
      ghost var l0 := listBatch;
      ghost var q0 := createBatch;
      StartProgress(ref, l0, q0, parent, depth);
      var n := |listBatch|;
      var idx := 0;
      while idx < n
        invariant 0 <= idx <= n == |ref| && Valid()
        invariant Progress(ref, l0, q0, parent, depth, idx, listBatch, createBatch)
      {
        ghost var la := listBatch;
        ghost var qa := createBatch;
        ProgressShape(ref, l0, q0, parent, depth, idx, listBatch, createBatch);
        if listBatch[idx].ParentId == parent {
          SetChildDepth(idx, depth);
          ghost var lb := listBatch;
          ghost var qb := createBatch;
          var c := listBatch[idx].Id;
          DownStep(Links(ref), idx);
          SetGroupDepth(c, depth + 1, ref);
          ChildIteration(ref, l0, q0, parent, depth, idx, la, qa, lb, qb, listBatch, createBatch);
          assert Valid() && Progress(ref, l0, q0, parent, depth, idx + 1, listBatch, createBatch);
        } else {
          SkipIteration(ref, l0, q0, parent, depth, idx, listBatch, createBatch);
        }
        idx := idx + 1;
      }
      assert idx == |ref|;
      FinishProgress(ref, l0, q0, parent, depth, listBatch, createBatch);
    }
  }
}
