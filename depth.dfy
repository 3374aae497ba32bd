/**
 * DepthSpec: what setGroupDepth(parent, depth) computes, stated on values. Every group
 * below `parent` gets the depth `depth` plus its distance to `parent` minus one; every
 * other group keeps its depth.
 */
module DepthSpec {
  import opened Groups
  import opened Hierarchy
  import opened Traversal

  /** The depth setGroupDepth(parent, depth) gives to a group below `parent`. */
  ghost function TargetDepth(ls: seq<Link>, parent: Uuid, depth: int, x: Uuid): int
    requires Acyclic(ls) && Below(ls, parent, x)
  {
    depth + Hops(ls, parent, x).value - 1
  }

  /** One group after the recalculation. */
  ghost function Relevelled(ls: seq<Link>, parent: Uuid, depth: int, g: Group): (r: Group)
    requires Acyclic(ls)
    ensures r.Id == g.Id && r.ParentId == g.ParentId
    ensures r == g || r == g.(DepthLevel := r.DepthLevel)
  {
    if Below(ls, parent, g.Id) then g.(DepthLevel := TargetDepth(ls, parent, depth, g.Id)) else g
  }

  /** The recalculation rewrites this group's depth: the groups queued for storage. */
  ghost predicate Moves(ls: seq<Link>, parent: Uuid, depth: int, g: Group)
    requires Acyclic(ls)
  {
    Below(ls, parent, g.Id) && g.DepthLevel != TargetDepth(ls, parent, depth, g.Id)
  }

  /** The whole list after the recalculation. */
  ghost function Relevel(l: seq<Group>, parent: Uuid, depth: int): (r: seq<Group>)
    requires Acyclic(Links(l))
    ensures |r| == |l|
    ensures forall i :: 0 <= i < |l| ==> r[i] == Relevelled(Links(l), parent, depth, l[i])
  {
    seq(|l|, i requires 0 <= i < |l| => Relevelled(Links(l), parent, depth, l[i]))
  }

  /** Recalculating depths leaves the shape (ids and parents, in order) as it was. */
  lemma RelevelKeepsLinks(l: seq<Group>, parent: Uuid, depth: int)
    requires Acyclic(Links(l))
    ensures Links(Relevel(l, parent, depth)) == Links(l)
  {
  }

  /**
   * After recalculating below `parent` with `depth`, a group directly under `parent`
   * has depth `depth`, and any deeper group has its parent's new depth plus one; groups
   * not below `parent` keep their depth.
   */
  lemma {:induction false} RelevelDepthConsistent(l: seq<Group>, parent: Uuid, depth: int, i: nat)
    requires TreeShaped(l) && i < |l|
    ensures var r := Relevel(l, parent, depth);
      && (!Below(Links(l), parent, l[i].Id) ==> r[i] == l[i])
      && (l[i].ParentId == parent ==> r[i].DepthLevel == depth)
      && (Below(Links(l), parent, l[i].Id) && l[i].ParentId != parent ==>
            exists j :: 0 <= j < |l| && r[j].Id == l[i].ParentId && r[i].DepthLevel == r[j].DepthLevel + 1)
  {
    var ls := Links(l);
    var r := Relevel(l, parent, depth);
    var x := l[i].Id;
    var p := l[i].ParentId;
    assert ls[i] == Link(x, p);
    LinkParentAt(ls, i);
    if p == parent {
      ParentNotReached(ls, x, p, x);
      HopsStep(ls, parent, x, p);
    } else if Below(ls, parent, x) {
      HopsStep(ls, parent, x, p);
      assert Below(ls, parent, p);
      var j := BelowHasIndex(l, parent, p);
      assert r[j].Id == p;
    }
  }

  /**
   * RecalcGroupsDepth(rootId) on a known group: the group itself and every group not
   * below it keep their entries, and every group below it ends one level deeper than
   * its parent's new depth.
   */
  lemma RecalcFromGroupDepths(l: seq<Group>, rootId: Uuid, i: nat)
    requires TreeShaped(l) && HasId(l, rootId) && i < |l|
    ensures var root := GetBatchElementById(l, rootId);
      var r := Relevel(l, root.Id, root.DepthLevel + 1);
      && (l[i].Id == rootId ==> r[i] == l[i])
      && (!Below(Links(l), rootId, l[i].Id) ==> r[i] == l[i])
      && (Below(Links(l), rootId, l[i].Id) ==>
            exists j :: 0 <= j < |l| && r[j].Id == l[i].ParentId && r[i].DepthLevel == r[j].DepthLevel + 1)
  {
    var root := GetBatchElementById(l, rootId);
    var r := Relevel(l, rootId, root.DepthLevel + 1);
    RelevelDepthConsistent(l, rootId, root.DepthLevel + 1, i);
    if l[i].ParentId == rootId && Below(Links(l), rootId, l[i].Id) {
      var k := RootKeepsEntry(l, rootId);
      assert r[k].Id == l[i].ParentId && r[i].DepthLevel == r[k].DepthLevel + 1;
    }
  }

  /** The group a recalculation starts from is not below itself, so its entry is kept. */
  lemma RootKeepsEntry(l: seq<Group>, rootId: Uuid) returns (k: nat)
    requires TreeShaped(l) && HasId(l, rootId)
    ensures var root := GetBatchElementById(l, rootId);
      k < |l| && l[k] == root && Relevel(l, rootId, root.DepthLevel + 1)[k] == root
  {
    var root := GetBatchElementById(l, rootId);
    k :| 0 <= k < |l| && l[k] == root && root.Id == rootId;
    assert !Below(Links(l), rootId, rootId);
    RelevelDepthConsistent(l, rootId, root.DepthLevel + 1, k);
  }

  /** A proper descendant (of anything) is the id of some group in the list. */
  lemma BelowHasIndex(l: seq<Group>, g: Uuid, x: Uuid) returns (j: nat)
    requires Acyclic(Links(l)) && Below(Links(l), g, x)
    ensures j < |l| && l[j].Id == x
  {
    var ls := Links(l);
    assert LinkParent(ls, x).Some?;
    j :| 0 <= j < |ls| && ls[j] == Link(x, LinkParent(ls, x).value);
  }

  /**
   * setGroupDepth's queue update for one group whose depth changed: a pending entry
   * with that id keeps all its fields but takes the new depth; otherwise the group is
   * queued at the end.
   */
  function PendDepth(q: seq<Group>, g: Group): (r: seq<Group>)
    ensures HasId(q, g.Id) ==>
      |r| == |q| && r[IndexOfId(q, g.Id)] == q[IndexOfId(q, g.Id)].(DepthLevel := g.DepthLevel) &&
      forall i :: 0 <= i < |q| && i != IndexOfId(q, g.Id) ==> r[i] == q[i]
    ensures !HasId(q, g.Id) ==> r == q + [g]
  {
    var k := IndexOfId(q, g.Id);
    if k == -1 then q + [g] else q[k := q[k].(DepthLevel := g.DepthLevel)]
  }

  /** The queue after a series of depth updates, applied front to back. */
  function PendAll(q: seq<Group>, gs: seq<Group>): seq<Group>
    decreases |gs|
  {
    if gs == [] then q else PendDepth(PendAll(q, gs[..|gs| - 1]), gs[|gs| - 1])
  }

  /**
   * The groups among xs (visited in that order) whose depth the recalculation below
   * `parent` changes, each with its new depth.
   */
  ghost function Pending(l: seq<Group>, parent: Uuid, depth: int, xs: seq<Uuid>): (gs: seq<Group>)
    requires Acyclic(Links(l))
    decreases |xs|
  {
    if xs == [] then []
    else
      var g := GetBatchElementById(l, xs[|xs| - 1]);
      Pending(l, parent, depth, xs[..|xs| - 1])
        + (if Moves(Links(l), parent, depth, g) then [Relevelled(Links(l), parent, depth, g)] else [])
  }

  /**
   * The queue after the whole recalculation below `parent`: the groups below it whose
   * depth changes, in the order getTreeBottomElements lists them.
   */
  ghost function DepthQueue(l: seq<Group>, q: seq<Group>, parent: Uuid, depth: int): seq<Group>
    requires Acyclic(Links(l))
  {
    PendAll(q, Pending(l, parent, depth, GetTreeBottomElements(l, parent)))
  }

  lemma {:induction false} PendAllConcat(q: seq<Group>, a: seq<Group>, b: seq<Group>)
    ensures PendAll(q, a + b) == PendAll(PendAll(q, a), b)
    decreases |b|
  {
    if b != [] {
      assert (a + b)[..|a + b| - 1] == a + b[..|b| - 1];
      PendAllConcat(q, a, b[..|b| - 1]);
    } else {
      assert a + b == a;
    }
  }

  lemma {:induction false} PendingConcat(l: seq<Group>, parent: Uuid, depth: int, a: seq<Uuid>, b: seq<Uuid>)
    requires Acyclic(Links(l))
    ensures Pending(l, parent, depth, a + b) == Pending(l, parent, depth, a) + Pending(l, parent, depth, b)
    decreases |b|
  {
    if b != [] {
      assert (a + b)[..|a + b| - 1] == a + b[..|b| - 1];
      PendingConcat(l, parent, depth, a, b[..|b| - 1]);
    } else {
      assert a + b == a;
    }
  }

  /**
   * Recalculating below a child c of `parent` with depth + 1 queues the same groups,
   * with the same depths, as the recalculation below `parent` does for the groups below c,
   * as long as those groups are the same in both lists.
   */
  lemma {:induction false} PendingBelowChild(l1: seq<Group>, l0: seq<Group>, parent: Uuid, c: Uuid, depth: int, xs: seq<Uuid>)
    requires Acyclic(Links(l0)) && Links(l1) == Links(l0) && LinkParent(Links(l0), c) == Some(parent)
    requires forall x :: x in xs ==> Below(Links(l0), c, x) && GetBatchElementById(l1, x) == GetBatchElementById(l0, x)
    ensures Pending(l1, c, depth + 1, xs) == Pending(l0, parent, depth, xs)
    decreases |xs|
  {
    if xs != [] {
      var x := xs[|xs| - 1];
      assert x in xs;
      var g := GetBatchElementById(l0, x);
      var i := BelowHasIndex(l0, c, x);
      assert g.Id == x;
      RelevelBelowChild(Links(l0), parent, c, depth, g);
      PendingBelowChild(l1, l0, parent, c, depth, xs[..|xs| - 1]);
    }
  }

  /** For a group below a child c of `parent`, recalculating from c with depth + 1 agrees with recalculating from `parent`. */
  lemma RelevelBelowChild(ls: seq<Link>, parent: Uuid, c: Uuid, depth: int, g: Group)
    requires Acyclic(ls) && LinkParent(ls, c) == Some(parent) && Below(ls, c, g.Id)
    ensures Below(ls, parent, g.Id)
    ensures TargetDepth(ls, c, depth + 1, g.Id) == TargetDepth(ls, parent, depth, g.Id)
    ensures Moves(ls, c, depth + 1, g) == Moves(ls, parent, depth, g)
    ensures Relevelled(ls, c, depth + 1, g) == Relevelled(ls, parent, depth, g)
  {
    BranchChar(ls, parent, c, g.Id);
  }

  /** The depth update preserves "one pending entry per id". */
  lemma {:induction false} PendAllKeepsUnique(q: seq<Group>, gs: seq<Group>)
    requires UniqueIds(q)
    ensures UniqueIds(PendAll(q, gs))
    decreases |gs|
  {
    if gs != [] {
      PendAllKeepsUnique(q, gs[..|gs| - 1]);
      var q' := PendAll(q, gs[..|gs| - 1]);
      var g := gs[|gs| - 1];
      var r := PendDepth(q', g);
      if HasId(q', g.Id) {
        assert forall i :: 0 <= i < |q'| ==> r[i].Id == q'[i].Id;
      } else {
        forall i, j | 0 <= i < j < |r| ensures r[i].Id != r[j].Id {
          if j == |q'| {
            assert r[i] == q'[i];
          } else {
            assert r[i] == q'[i] && r[j] == q'[j];
          }
        }
      }
    }
  }

  /**
   * The depth updates touch only depths: every entry queued before keeps its place, its
   * id and all its other fields; new entries come after it.
   */
  lemma {:induction false} PendAllOnlyDepth(q: seq<Group>, gs: seq<Group>, i: nat)
    requires i < |q|
    ensures |PendAll(q, gs)| >= |q|
    ensures PendAll(q, gs)[i] == q[i].(DepthLevel := PendAll(q, gs)[i].DepthLevel)
    decreases |gs|
  {
    if gs != [] {
      PendAllOnlyDepth(q, gs[..|gs| - 1], i);
    }
  }

  /** After a depth update the entry found for that id carries the new depth. */
  lemma PendDepthSets(q: seq<Group>, g: Group)
    ensures HasId(PendDepth(q, g), g.Id)
    ensures GetBatchElementById(PendDepth(q, g), g.Id).DepthLevel == g.DepthLevel
  {
    var r := PendDepth(q, g);
    if HasId(q, g.Id) {
      var k := IndexOfId(q, g.Id);
      assert forall i :: 0 <= i < |q| ==> r[i].Id == q[i].Id;
      assert IndexOfId(r, g.Id) == k;
    } else {
      assert r == q + [g] && r[|q|] == g;
      assert forall i :: 0 <= i < |q| ==> r[i].Id != g.Id;
      assert IndexOfId(r, g.Id) == |q|;
    }
  }

  /** A depth update for one id leaves the entry found for any other id as it was. */
  lemma PendDepthOther(q: seq<Group>, g: Group, id: Uuid)
    requires id != g.Id
    ensures HasId(PendDepth(q, g), id) == HasId(q, id)
    ensures GetBatchElementById(PendDepth(q, g), id) == GetBatchElementById(q, id)
  {
    var r := PendDepth(q, g);
    if HasId(q, g.Id) {
      assert forall i :: 0 <= i < |q| ==> r[i].Id == q[i].Id;
    } else {
      assert forall i :: 0 <= i < |q| ==> r[i] == q[i];
    }
    if HasId(q, id) {
      assert IndexOfId(r, id) == IndexOfId(q, id);
    } else {
      assert !HasId(r, id);
    }
  }

  /**
   * Every group in gs ends up queued, and the entry found for its id carries the depth of
   * the last group in gs with that id.
   */
  lemma {:induction false} PendAllRecords(q: seq<Group>, gs: seq<Group>, k: nat)
    requires k < |gs| && forall j :: k < j < |gs| ==> gs[j].Id != gs[k].Id
    ensures HasId(PendAll(q, gs), gs[k].Id)
    ensures GetBatchElementById(PendAll(q, gs), gs[k].Id).DepthLevel == gs[k].DepthLevel
    decreases |gs|
  {
    var front := gs[..|gs| - 1];
    var last := gs[|gs| - 1];
    if k == |gs| - 1 {
      PendDepthSets(PendAll(q, front), last);
    } else {
      PendAllRecords(q, front, k);
      PendDepthOther(PendAll(q, front), last, gs[k].Id);
    }
  }

  /** A group among xs that the recalculation moves is among the pending groups, with its new depth. */
  lemma {:induction false} PendingHas(l: seq<Group>, parent: Uuid, depth: int, xs: seq<Uuid>, x: Uuid)
    requires Acyclic(Links(l)) && x in xs && Moves(Links(l), parent, depth, GetBatchElementById(l, x))
    ensures Relevelled(Links(l), parent, depth, GetBatchElementById(l, x)) in Pending(l, parent, depth, xs)
    decreases |xs|
  {
    var front := xs[..|xs| - 1];
    if x != xs[|xs| - 1] {
      assert x in front by {
        var i :| 0 <= i < |xs| && xs[i] == x;
        assert front[i] == x;
      }
      PendingHas(l, parent, depth, front, x);
    }
  }

  /** Every pending group carries an id from xs; without repeats in xs there are none among them. */
  lemma {:induction false} PendingUnique(l: seq<Group>, parent: Uuid, depth: int, xs: seq<Uuid>)
    requires Acyclic(Links(l)) && NoDup(xs)
    ensures forall g :: g in Pending(l, parent, depth, xs) ==> g.Id in xs
    ensures UniqueIds(Pending(l, parent, depth, xs))
    decreases |xs|
  {
    if xs != [] {
      var front := xs[..|xs| - 1];
      var x := xs[|xs| - 1];
      var g := GetBatchElementById(l, x);
      PendingUnique(l, parent, depth, front);
      var a := Pending(l, parent, depth, front);
      if Moves(Links(l), parent, depth, g) {
        var j := BelowHasIndex(l, parent, g.Id);
        NilNeverAnId(l);
        assert g.Id == x;
        forall y | y in a ensures y.Id != x && y.Id in xs {
          var i :| 0 <= i < |front| && front[i] == y.Id;
          assert xs[i] == y.Id && i < |xs| - 1;
        }
        var b := a + [Relevelled(Links(l), parent, depth, g)];
        assert Pending(l, parent, depth, xs) == b;
        forall i, k | 0 <= i < k < |b| ensures b[i].Id != b[k].Id {
          if k < |a| {
            assert b[i] == a[i] && b[k] == a[k];
          } else {
            assert b[i] in a;
          }
        }
      } else {
        assert Pending(l, parent, depth, xs) == a;
        forall y | y in a ensures y.Id in xs {
          var i :| 0 <= i < |front| && front[i] == y.Id;
          assert xs[i] == y.Id;
        }
      }
    }
  }

  /**
   * Every group whose depth the recalculation changes is queued for storage, and the
   * queue entry for its id carries the new depth.
   */
  lemma DepthQueueRecordsMoves(l: seq<Group>, q: seq<Group>, parent: Uuid, depth: int, i: nat)
    requires TreeShaped(l) && i < |l| && Relevel(l, parent, depth)[i] != l[i]
    ensures HasId(DepthQueue(l, q, parent, depth), l[i].Id)
    ensures GetBatchElementById(DepthQueue(l, q, parent, depth), l[i].Id).DepthLevel
      == Relevel(l, parent, depth)[i].DepthLevel
  {
    var ls := Links(l);
    var xs := GetTreeBottomElements(l, parent);
    IndexOfUnique(l, i);
    assert GetBatchElementById(l, l[i].Id) == l[i];
    assert Moves(ls, parent, depth, l[i]);
    DescendantsExact(l, parent);
    DescendantsNoDup(l, parent);
    PendingHas(l, parent, depth, xs, l[i].Id);
    PendingUnique(l, parent, depth, xs);
    var gs := Pending(l, parent, depth, xs);
    var k :| 0 <= k < |gs| && gs[k] == Relevelled(ls, parent, depth, l[i]);
    PendAllRecords(q, gs, k);
  }
}
