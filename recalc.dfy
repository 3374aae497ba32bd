/**
 * RecalcSteps: the facts the loop of setGroupDepth relies on. After the loop has
 * passed the first n groups, it has visited, in order, each child of `parent` among
 * them followed by everything below that child: the same order getTreeBottomElements
 * lists them in.
 */
module RecalcSteps {
  import opened Groups
  import opened Hierarchy
  import opened Traversal
  import opened DepthSpec

  lemma PrefixChildrenIn(ref: seq<Group>, n: nat, parent: Uuid)
    requires n <= |ref|
    ensures ChildrenIn(ref, ChildrenOf(ref[..n], parent), parent)
  {
    forall g | g in ChildrenOf(ref[..n], parent) ensures g in ref && g.ParentId == parent {
      var i :| 0 <= i < n && ref[..n][i] == g;
      assert ref[i] == g;
    }
  }

  /** The ids setGroupDepth(parent, _) has visited once its loop has passed ref[..n]. */
  ghost function Visited(ref: seq<Group>, parent: Uuid, n: nat): seq<Uuid>
    requires Acyclic(Links(ref)) && n <= |ref|
  {
    PrefixChildrenIn(ref, n, parent);
    Forest(ref, ChildrenOf(ref[..n], parent), parent)
  }

  lemma ChildrenInSnoc(ref: seq<Group>, cs: seq<Group>, parent: Uuid, c: Group)
    requires ChildrenIn(ref, cs, parent) && c in ref && c.ParentId == parent
    ensures ChildrenIn(ref, cs + [c], parent)
    ensures cs != [] ==> ChildrenIn(ref, cs[1..], parent) && (cs + [c])[1..] == cs[1..] + [c]
  {
    if cs != [] {
      assert forall g :: g in cs[1..] ==> g in cs;
    }
  }

  /** Adding a child at the end of the children lists it and its subtree last. */
  lemma {:induction false} ForestSnoc(ref: seq<Group>, cs: seq<Group>, parent: Uuid, c: Group)
    requires Acyclic(Links(ref)) && ChildrenIn(ref, cs, parent) && c in ref && c.ParentId == parent
    ensures ChildrenIn(ref, cs + [c], parent)
    ensures Forest(ref, cs + [c], parent) == Forest(ref, cs, parent) + [c.Id] + CompileTreeBottomElements(ref, c.Id)
    decreases |cs|
  {
    ChildrenInSnoc(ref, cs, parent, c);
    if cs == [] {
      assert [c][1..] == [];
    } else {
      ForestSnoc(ref, cs[1..], parent, c);
    }
  }

  lemma ChildrenOfOne(g: Group, parent: Uuid)
    ensures ChildrenOf([g], parent) == if g.ParentId == parent then [g] else []
  {
    assert [g][1..] == [];
  }

  /** Passing one more group adds it to the children exactly when its parent is `parent`. */
  lemma PrefixChildren(ref: seq<Group>, n: nat, parent: Uuid)
    requires n < |ref|
    ensures ChildrenOf(ref[..n + 1], parent) ==
      ChildrenOf(ref[..n], parent) + (if ref[n].ParentId == parent then [ref[n]] else [])
  {
    assert ref[..n + 1] == ref[..n] + [ref[n]];
    ChildrenOfAppend(ref[..n], [ref[n]], parent);
    ChildrenOfOne(ref[n], parent);
  }

  /** A loop step over a group that is not a child of `parent` visits nothing. */
  lemma VisitedSkip(ref: seq<Group>, parent: Uuid, n: nat)
    requires Acyclic(Links(ref)) && n < |ref| && ref[n].ParentId != parent
    ensures Visited(ref, parent, n + 1) == Visited(ref, parent, n)
  {
    PrefixChildren(ref, n, parent);
    assert ChildrenOf(ref[..n + 1], parent) == ChildrenOf(ref[..n], parent);
  }

  /** A loop step over a child of `parent` visits the child, then everything below it. */
  lemma VisitedChild(ref: seq<Group>, parent: Uuid, n: nat)
    requires Acyclic(Links(ref)) && n < |ref| && ref[n].ParentId == parent
    ensures Visited(ref, parent, n + 1) == Visited(ref, parent, n) + [ref[n].Id] + GetTreeBottomElements(ref, ref[n].Id)
  {
    var cs := ChildrenOf(ref[..n], parent);
    PrefixChildren(ref, n, parent);
    PrefixChildrenIn(ref, n, parent);
    assert ref[n] in ref;
    ForestSnoc(ref, cs, parent, ref[n]);
    BelowRankOfId(ref, ref[n]);
  }

  /** Before the loop nothing is visited. */
  lemma VisitedNone(ref: seq<Group>, parent: Uuid)
    requires Acyclic(Links(ref))
    ensures Visited(ref, parent, 0) == []
  {
    assert ref[..0] == [];
  }

  /** Once the loop is over, the visited ids are exactly getTreeBottomElements(parent). */
  lemma VisitedAll(ref: seq<Group>, parent: Uuid)
    requires Acyclic(Links(ref))
    ensures Visited(ref, parent, |ref|) == GetTreeBottomElements(ref, parent)
  {
    assert ref[..|ref|] == ref;
  }

  /** No id is visited twice. */
  lemma VisitedNoDup(ref: seq<Group>, parent: Uuid, n: nat)
    requires TreeShaped(ref) && n <= |ref|
    ensures NoDup(Visited(ref, parent, n))
  {
    PrefixChildrenIn(ref, n, parent);
    assert UniqueIds(ref[..n]) by {
      forall i, j | 0 <= i < j < n ensures ref[..n][i].Id != ref[..n][j].Id {
        assert ref[..n][i] == ref[i] && ref[..n][j] == ref[j];
      }
    }
    ChildrenOfUnique(ref[..n], parent);
    ForestNoDup(ref, ChildrenOf(ref[..n], parent), parent);
  }

  lemma NoDupParts(v: seq<Uuid>, c: Uuid, sub: seq<Uuid>)
    requires NoDup(v + [c] + sub)
    ensures c !in v && c !in sub
    ensures forall x :: x in sub ==> x !in v
  {
    var w := v + [c] + sub;
    assert w[|v|] == c;
    assert forall i :: 0 <= i < |v| ==> w[i] == v[i];
    assert forall j :: 0 <= j < |sub| ==> w[|v| + 1 + j] == sub[j];
  }

  /** A child of `parent` lies one step below it and is due the depth `depth`. */
  lemma ChildLinks(ls: seq<Link>, parent: Uuid, depth: int, n: nat)
    requires Acyclic(ls) && DistinctIds(ls) && n < |ls| && ls[n].parent == parent
    ensures LinkParent(ls, ls[n].id) == Some(parent)
    ensures Below(ls, parent, ls[n].id)
    ensures TargetDepth(ls, parent, depth, ls[n].id) == depth
  {
    LinkParentAt(ls, n);
    assert Hops(ls, parent, parent) == Some(0);
  }

  /** Equal shapes mean equal positions for every id. */
  lemma {:induction false} SameLinksSameIndex(a: seq<Group>, b: seq<Group>, x: Uuid)
    requires Links(a) == Links(b)
    ensures IndexOfId(a, x) == IndexOfId(b, x)
  {
    if |a| > 0 && a[0].Id != x {
      assert Links(a)[0] == Links(b)[0];
      assert Links(a[1..]) == Links(a)[1..] == Links(b)[1..] == Links(b[1..]);
      SameLinksSameIndex(a[1..], b[1..], x);
    }
  }

  /** The groups of l are those of l0, relevelled below `parent` exactly where their id has been visited. */
  ghost predicate ListAt(l0: seq<Group>, l: seq<Group>, ls: seq<Link>, parent: Uuid, depth: int, v: seq<Uuid>)
    requires Acyclic(ls)
  {
    |l| == |l0| && forall i :: 0 <= i < |l0| ==> l[i] == (if l0[i].Id in v then Relevelled(ls, parent, depth, l0[i]) else l0[i])
  }

  /** The update setGroupDepth makes to a child of `parent` before descending into it. */
  function SetOwnDepth(l: seq<Group>, n: nat, depth: int): (r: seq<Group>)
    requires n < |l|
    ensures Links(r) == Links(l) && |r| == |l|
    ensures r[n] == l[n].(DepthLevel := depth)
    ensures forall i :: 0 <= i < |l| && i != n ==> r[i] == l[i]
  {
    if l[n].DepthLevel != depth then l[n := l[n].(DepthLevel := depth)] else l
  }

  /**
   * The facts about one loop step over the child l0[n] of `parent`, with v visited
   * before it and sub the ids below it.
   */
  ghost predicate ChildStep(ls: seq<Link>, l0: seq<Group>, parent: Uuid, depth: int, n: nat, v: seq<Uuid>, sub: seq<Uuid>)
    requires Acyclic(ls)
  {
    && Links(l0) == ls && UniqueIds(l0) && n < |l0| && l0[n].ParentId == parent
    && LinkParent(ls, l0[n].Id) == Some(parent)
    && Below(ls, parent, l0[n].Id)
    && TargetDepth(ls, parent, depth, l0[n].Id) == depth
    && l0[n].Id !in v && l0[n].Id !in sub
    && (forall x :: x in sub ==> x !in v)
    && (forall x :: x in sub <==> Below(ls, l0[n].Id, x))
  }

  lemma ChildStepHolds(ref: seq<Group>, l0: seq<Group>, parent: Uuid, depth: int, n: nat)
    requires TreeShaped(ref) && Links(l0) == Links(ref) && n < |ref| && ref[n].ParentId == parent
    ensures ref[n].Id == l0[n].Id && l0[n].ParentId == parent
    ensures ChildStep(Links(ref), l0, parent, depth, n, Visited(ref, parent, n), GetTreeBottomElements(ref, ref[n].Id))
  {
    var ls := Links(ref);
    assert ls[n] == Links(l0)[n];
    VisitedChild(ref, parent, n);
    VisitedNoDup(ref, parent, n + 1);
    NoDupParts(Visited(ref, parent, n), ref[n].Id, GetTreeBottomElements(ref, ref[n].Id));
    DescendantsExact(ref, ref[n].Id);
    ChildLinks(ls, parent, depth, n);
    assert UniqueIds(l0) by {
      forall i, j | 0 <= i < j < |l0| ensures l0[i].Id != l0[j].Id {
        assert ls[i] == Links(l0)[i] && ls[j] == Links(l0)[j];
      }
    }
  }

  /** The list half of a loop step over a child: visiting it and its subtree relevels exactly those. */
  lemma ListStep(ls: seq<Link>, l0: seq<Group>, la: seq<Group>, parent: Uuid, depth: int, n: nat, v: seq<Uuid>, sub: seq<Uuid>)
    requires Acyclic(ls) && ChildStep(ls, l0, parent, depth, n, v, sub)
    requires ListAt(l0, la, ls, parent, depth, v) && Links(la) == ls
    ensures ListAt(l0, Relevel(SetOwnDepth(la, n, depth), l0[n].Id, depth + 1), ls, parent, depth, v + [l0[n].Id] + sub)
  {
    var c := l0[n].Id;
    var lb := SetOwnDepth(la, n, depth);
    var lc := Relevel(lb, c, depth + 1);
    forall i | 0 <= i < |l0|
      ensures lc[i] == (if l0[i].Id in v + [c] + sub then Relevelled(ls, parent, depth, l0[i]) else l0[i])
    {
      if i != n && Below(ls, c, l0[i].Id) {
        RelevelBelowChild(ls, parent, c, depth, l0[i]);
      }
    }
  }

  /** The child's own queue update is the pending entry the recalculation below `parent` records for it. */
  lemma QueueOwn(ls: seq<Link>, l0: seq<Group>, la: seq<Group>, qa: seq<Group>, parent: Uuid, depth: int, n: nat, v: seq<Uuid>, sub: seq<Uuid>)
    requires Acyclic(ls) && ChildStep(ls, l0, parent, depth, n, v, sub)
    requires ListAt(l0, la, ls, parent, depth, v)
    ensures (if la[n].DepthLevel != depth then PendDepth(qa, SetOwnDepth(la, n, depth)[n]) else qa)
      == PendAll(qa, Pending(l0, parent, depth, [l0[n].Id]))
  {
    IndexOfUnique(l0, n);
    assert GetBatchElementById(l0, l0[n].Id) == l0[n] == la[n];
    assert [l0[n].Id][..0] == [];
    var gs := if la[n].DepthLevel != depth then [SetOwnDepth(la, n, depth)[n]] else [];
    assert Pending(l0, parent, depth, [l0[n].Id]) == gs;
    assert gs != [] ==> gs[..0] == [];
  }

  /** After the child's own update, the lookups of the ids below it are unchanged. */
  lemma SubtreeUntouched(ls: seq<Link>, l0: seq<Group>, la: seq<Group>, parent: Uuid, depth: int, n: nat, v: seq<Uuid>, sub: seq<Uuid>)
    requires Acyclic(ls) && ChildStep(ls, l0, parent, depth, n, v, sub)
    requires ListAt(l0, la, ls, parent, depth, v) && Links(la) == ls
    ensures forall x :: x in sub ==> GetBatchElementById(SetOwnDepth(la, n, depth), x) == GetBatchElementById(l0, x)
  {
    var lb := SetOwnDepth(la, n, depth);
    forall x | x in sub ensures GetBatchElementById(lb, x) == GetBatchElementById(l0, x) {
      SameLinksSameIndex(lb, l0, x);
    }
  }

  /** The queue half of a loop step over a child: its own update, then its subtree's, in visiting order. */
  lemma QueueStep(ls: seq<Link>, l0: seq<Group>, la: seq<Group>, q0: seq<Group>, qa: seq<Group>, qb: seq<Group>,
                  parent: Uuid, depth: int, n: nat, v: seq<Uuid>, sub: seq<Uuid>)
    requires Acyclic(ls) && ChildStep(ls, l0, parent, depth, n, v, sub)
    requires ListAt(l0, la, ls, parent, depth, v) && Links(la) == ls
    requires qa == PendAll(q0, Pending(l0, parent, depth, v))
    requires qb == if la[n].DepthLevel != depth then PendDepth(qa, SetOwnDepth(la, n, depth)[n]) else qa
    ensures PendAll(qb, Pending(SetOwnDepth(la, n, depth), l0[n].Id, depth + 1, sub))
      == PendAll(q0, Pending(l0, parent, depth, v + [l0[n].Id] + sub))
  {
    var c := l0[n].Id;
    var pv := Pending(l0, parent, depth, v);
    var pc := Pending(l0, parent, depth, [c]);
    var ps := Pending(l0, parent, depth, sub);
    QueueOwn(ls, l0, la, qa, parent, depth, n, v, sub);
    SubtreeUntouched(ls, l0, la, parent, depth, n, v, sub);
    PendingBelowChild(SetOwnDepth(la, n, depth), l0, parent, c, depth, sub);
    PendingConcat(l0, parent, depth, v, [c]);
    PendingConcat(l0, parent, depth, v + [c], sub);
    PendAllConcat(q0, pv, pc);
    PendAllConcat(q0, pv + pc, ps);
  }

  /** After the loop: relevelled exactly below `parent`, which is the whole recalculation. */
  lemma FinishRelevel(ref: seq<Group>, l0: seq<Group>, l: seq<Group>, parent: Uuid, depth: int)
    requires TreeShaped(ref) && Links(l0) == Links(ref)
    requires ListAt(l0, l, Links(ref), parent, depth, GetTreeBottomElements(ref, parent))
    ensures l == Relevel(l0, parent, depth)
  {
    DescendantsExact(ref, parent);
  }

  lemma PendDepthKeepsUnique(q: seq<Group>, g: Group)
    requires UniqueIds(q)
    ensures UniqueIds(PendDepth(q, g))
  {
    PendAllKeepsUnique(q, [g]);
    assert [g][..0] == [];
  }

  /** Ids live in the shape: two lists with the same shape agree on "ids are unique". */
  lemma SameLinksUnique(a: seq<Group>, b: seq<Group>)
    requires Links(a) == Links(b) && UniqueIds(b)
    ensures UniqueIds(a)
  {
    forall i, j | 0 <= i < j < |a| ensures a[i].Id != a[j].Id {
      assert Links(a)[i] == Links(b)[i] && Links(a)[j] == Links(b)[j];
    }
  }

  /**
   * The invariant of setGroupDepth's loop once it has passed ref[..n]: the list and the
   * queue are what the recalculation below `parent` gives for the ids visited so far.
   */
  ghost predicate Progress(ref: seq<Group>, l0: seq<Group>, q0: seq<Group>, parent: Uuid, depth: int, n: nat,
                           l: seq<Group>, q: seq<Group>)
    requires TreeShaped(ref) && n <= |ref|
  {
    && Links(l0) == Links(ref) && Links(l) == Links(ref)
    && ListAt(l0, l, Links(ref), parent, depth, Visited(ref, parent, n))
    && q == PendAll(q0, Pending(l0, parent, depth, Visited(ref, parent, n)))
  }

  /** The loop reads the shape of the list it is given: that of ref. */
  lemma ProgressShape(ref: seq<Group>, l0: seq<Group>, q0: seq<Group>, parent: Uuid, depth: int, n: nat,
                      l: seq<Group>, q: seq<Group>)
    requires TreeShaped(ref) && n < |ref| && Progress(ref, l0, q0, parent, depth, n, l, q)
    ensures n < |l| && l[n].ParentId == ref[n].ParentId && l[n].Id == ref[n].Id
  {
    assert Links(l)[n] == Links(ref)[n];
  }

  lemma StartProgress(ref: seq<Group>, l0: seq<Group>, q0: seq<Group>, parent: Uuid, depth: int)
    requires TreeShaped(ref) && Links(l0) == Links(ref)
    ensures Progress(ref, l0, q0, parent, depth, 0, l0, q0)
  {
    VisitedNone(ref, parent);
    assert Pending(l0, parent, depth, []) == [];
  }

  /** A loop step over a group that is not a child of `parent` changes nothing. */
  lemma SkipIteration(ref: seq<Group>, l0: seq<Group>, q0: seq<Group>, parent: Uuid, depth: int, n: nat,
                      l: seq<Group>, q: seq<Group>)
    requires TreeShaped(ref) && n < |ref| && ref[n].ParentId != parent
    requires Progress(ref, l0, q0, parent, depth, n, l, q)
    ensures Progress(ref, l0, q0, parent, depth, n + 1, l, q)
  {
    VisitedSkip(ref, parent, n);
  }

  /** After the loop: the whole recalculation. */
  lemma FinishProgress(ref: seq<Group>, l0: seq<Group>, q0: seq<Group>, parent: Uuid, depth: int,
                       l: seq<Group>, q: seq<Group>)
    requires TreeShaped(ref) && Progress(ref, l0, q0, parent, depth, |ref|, l, q)
    ensures l == Relevel(l0, parent, depth)
    ensures q == PendAll(q0, Pending(l0, parent, depth, GetTreeBottomElements(ref, parent)))
  {
    VisitedAll(ref, parent);
    FinishRelevel(ref, l0, l, parent, depth);
  }

  /**
   * One whole loop step over the child ref[n] of `parent`: its own update (la, qa to
   * lb, qb), then the recursive call below it (lb, qb to lc, qc), keeps the loop invariant.
   */
  lemma ChildIteration(ref: seq<Group>, l0: seq<Group>, q0: seq<Group>, parent: Uuid, depth: int, n: nat,
                       la: seq<Group>, qa: seq<Group>, lb: seq<Group>, qb: seq<Group>, lc: seq<Group>, qc: seq<Group>)
    requires TreeShaped(ref) && n < |ref| && ref[n].ParentId == parent
    requires Progress(ref, l0, q0, parent, depth, n, la, qa)
    requires lb == SetOwnDepth(la, n, depth)
    requires qb == if la[n].DepthLevel != depth then PendDepth(qa, lb[n]) else qa
    requires lc == Relevel(lb, ref[n].Id, depth + 1)
    requires qc == PendAll(qb, Pending(lb, ref[n].Id, depth + 1, GetTreeBottomElements(ref, ref[n].Id)))
    ensures Progress(ref, l0, q0, parent, depth, n + 1, lc, qc)
  {
    var ls := Links(ref);
    var v := Visited(ref, parent, n);
    var sub := GetTreeBottomElements(ref, ref[n].Id);
    ChildStepHolds(ref, l0, parent, depth, n);
    VisitedChild(ref, parent, n);
    ListStep(ls, l0, la, parent, depth, n, v, sub);
    QueueStep(ls, l0, la, q0, qa, qb, parent, depth, n, v, sub);
    RelevelKeepsLinks(lb, ref[n].Id, depth + 1);
  }

  /**
   * The outcome of setGroupDepth started below the group found for `id`, one deeper
   * than that group, restated in terms of the lookup.
   */
  lemma RecalcFromRoot(l0: seq<Group>, q0: seq<Group>, id: Uuid, p: Uuid, d: int, l: seq<Group>, q: seq<Group>)
    requires TreeShaped(l0) && Links(l) == Links(l0)
    requires p == GetBatchElementById(l0, id).Id && d == GetBatchElementById(l0, id).DepthLevel + 1
    requires l == Relevel(l0, p, d)
    requires q == PendAll(q0, Pending(l0, p, d, GetTreeBottomElements(l0, p)))
    ensures TreeShaped(l) && UniqueIds(l)
    ensures l == Relevel(l0, GetBatchElementById(l0, id).Id, GetBatchElementById(l0, id).DepthLevel + 1)
    ensures q == DepthQueue(l0, q0, GetBatchElementById(l0, id).Id, GetBatchElementById(l0, id).DepthLevel + 1)
  {
    SameLinksUnique(l, l0);
  }
}
