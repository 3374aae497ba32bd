/**
 * Traversal: the descendant enumeration of the cache (getTreeBottomElements and
 * compileTreeBottomElements) as pure functions of the current-state list, and what
 * it lists: exactly the groups below the start, each once, in pre-order.
 */
module Traversal {
  import opened Groups
  import opened Hierarchy

  /** Every group of cs is a group of l whose parent is `parent`. */
  ghost predicate ChildrenIn(l: seq<Group>, cs: seq<Group>, parent: Uuid) {
    forall c :: c in cs ==> c in l && c.ParentId == parent
  }

  lemma DownChild(l: seq<Group>, c: Group, parent: Uuid)
    requires Acyclic(Links(l)) && c in l && c.ParentId == parent
    ensures Down(Links(l), c.Id) < Down(Links(l), parent)
  {
    var i :| 0 <= i < |l| && l[i] == c;
    DownStep(Links(l), i);
  }

  /** First-match lookup on groups and on links agree. */
  lemma {:induction false} LinkParentOfGroup(l: seq<Group>, x: Uuid)
    ensures HasId(l, x) ==> LinkParent(Links(l), x) == Some(GetBatchElementById(l, x).ParentId)
    ensures !HasId(l, x) ==> LinkParent(Links(l), x) == None
  {
    if |l| > 0 && l[0].Id != x {
      assert Links(l)[1..] == Links(l[1..]);
      LinkParentOfGroup(l[1..], x);
      assert HasId(l, x) <==> HasId(l[1..], x) by {
        if HasId(l, x) {
          var i :| 0 <= i < |l| && l[i].Id == x;
          assert l[1..][i - 1].Id == x;
        }
        if HasId(l[1..], x) {
          var i :| 0 <= i < |l[1..]| && l[1..][i].Id == x;
          assert l[i + 1].Id == x;
        }
      }
      assert IndexOfId(l, x) == if IndexOfId(l[1..], x) == -1 then -1 else IndexOfId(l[1..], x) + 1;
    }
  }

  /**
   * The ids listed for the children cs of `parent`: each child, immediately followed
   * by everything below it (the loop of getTreeBottomElements and compileTreeBottomElements).
   */
  function Forest(l: seq<Group>, cs: seq<Group>, parent: Uuid): (r: seq<Uuid>)
    requires Acyclic(Links(l)) && ChildrenIn(l, cs, parent)
    ensures forall x :: x in r ==> HasId(l, x)
    decreases Down(Links(l), parent), 0, |cs|
  {
    if |cs| == 0 then []
    else
      assert cs[0] in l;
      DownChild(l, cs[0], parent);
      [cs[0].Id] + CompileTreeBottomElements(l, cs[0].Id) + Forest(l, cs[1..], parent)
  }

  /** compileTreeBottomElements: the ids below groupId, in pre-order; nothing below Nil. */
  function CompileTreeBottomElements(l: seq<Group>, groupId: Uuid): (r: seq<Uuid>)
    requires Acyclic(Links(l))
    ensures forall x :: x in r ==> HasId(l, x)
    ensures groupId == Nil ==> r == []
    decreases Down(Links(l), groupId), 1
  {
    if groupId == Nil then []
    else Forest(l, ChildrenOf(l, groupId), groupId)
  }

  /** getTreeBottomElements: every id below groupId (no Nil check at the top). */
  function GetTreeBottomElements(l: seq<Group>, groupId: Uuid): (r: seq<Uuid>)
    requires Acyclic(Links(l))
    ensures forall x :: x in r ==> HasId(l, x)
  {
    Forest(l, ChildrenOf(l, groupId), groupId)
  }

  lemma {:induction false} ForestHasChild(l: seq<Group>, cs: seq<Group>, parent: Uuid, c: Group)
    requires Acyclic(Links(l)) && ChildrenIn(l, cs, parent) && c in cs
    ensures c.Id in Forest(l, cs, parent)
  {
    if cs[0] != c {
      ForestHasChild(l, cs[1..], parent, c);
    }
  }

  /** Everything listed for cs lies below `parent`, on the branch of one of the children in cs. */
  lemma {:induction false} ForestSound(l: seq<Group>, cs: seq<Group>, parent: Uuid, y: Uuid)
    requires TreeShaped(l) && ChildrenIn(l, cs, parent) && y in Forest(l, cs, parent)
    ensures Below(Links(l), parent, y)
    ensures exists c :: c in cs && c.Id == Branch(Links(l), parent, y)
    decreases Down(Links(l), parent), 0, |cs|
  {
    var ls := Links(l);
    var c0 := cs[0];
    assert c0 in l;
    DownChild(l, c0, parent);
    var i :| 0 <= i < |l| && l[i] == c0;
    LinkParentAt(ls, i);
    if y == c0.Id {
      BranchChar(ls, parent, c0.Id, y);
    } else if y in CompileTreeBottomElements(l, c0.Id) {
      SubtreeSound(l, c0.Id, y);
      BranchChar(ls, parent, c0.Id, y);
    } else {
      ForestSound(l, cs[1..], parent, y);
      var c :| c in cs[1..] && c.Id == Branch(ls, parent, y);
      assert c in cs;
    }
  }

  lemma {:induction false} SubtreeSound(l: seq<Group>, id: Uuid, y: Uuid)
    requires TreeShaped(l) && y in CompileTreeBottomElements(l, id)
    ensures Below(Links(l), id, y)
    decreases Down(Links(l), id), 1
  {
    ForestSound(l, ChildrenOf(l, id), id, y);
  }

  /** Whatever is listed brings its own children along. */
  lemma {:induction false} ForestClosed(l: seq<Group>, cs: seq<Group>, parent: Uuid, y: Uuid, c: Group)
    requires TreeShaped(l) && ChildrenIn(l, cs, parent) && y in Forest(l, cs, parent)
    requires c in l && c.ParentId == y
    ensures c.Id in Forest(l, cs, parent)
    decreases Down(Links(l), parent), 0, |cs|
  {
    var c0 := cs[0];
    assert c0 in l;
    DownChild(l, c0, parent);
    var sub := CompileTreeBottomElements(l, c0.Id);
    assert Forest(l, cs, parent) == [c0.Id] + sub + Forest(l, cs[1..], parent);
    if y == c0.Id {
      BelowRankOfId(l, c0);
      ForestHasChild(l, ChildrenOf(l, c0.Id), c0.Id, c);
    } else if y in sub {
      BelowRankOfId(l, c0);
      ForestClosed(l, ChildrenOf(l, c0.Id), c0.Id, y, c);
    } else {
      ForestClosed(l, cs[1..], parent, y, c);
    }
  }

  /** Ids of an acyclic list are never Nil. */
  lemma BelowRankOfId(l: seq<Group>, g: Group)
    requires Acyclic(Links(l)) && g in l
    ensures g.Id != Nil
  {
    var i :| 0 <= i < |l| && l[i] == g;
    assert Links(l)[i].id in RankOf(Links(l));
  }

  /** No group of an acyclic list carries the Nil id. */
  lemma NilNeverAnId(l: seq<Group>)
    requires Acyclic(Links(l))
    ensures !HasId(l, Nil)
  {
  }

  /** Every proper descendant of groupId is listed. */
  lemma {:induction false} DescendantsComplete(l: seq<Group>, groupId: Uuid, x: Uuid)
    requires TreeShaped(l) && Below(Links(l), groupId, x)
    ensures x in GetTreeBottomElements(l, groupId)
    decreases Up(Links(l), x)
  {
    var ls := Links(l);
    var p := LinkParent(ls, x).value;
    UpStep(ls, x, p);
    var i :| 0 <= i < |ls| && ls[i] == Link(x, p);
    assert l[i].Id == x && l[i].ParentId == p && l[i] in l;
    if p == groupId {
      ForestHasChild(l, ChildrenOf(l, groupId), groupId, l[i]);
    } else {
      DescendantsComplete(l, groupId, p);
      ForestClosed(l, ChildrenOf(l, groupId), groupId, p, l[i]);
    }
  }

  /**
   * getTreeBottomElements lists exactly the groups whose ancestor chain passes
   * through groupId; groupId itself is never listed.
   */
  lemma DescendantsExact(l: seq<Group>, groupId: Uuid)
    requires TreeShaped(l)
    ensures forall x :: x in GetTreeBottomElements(l, groupId) <==> Below(Links(l), groupId, x)
    ensures groupId !in GetTreeBottomElements(l, groupId)
  {
    forall x ensures x in GetTreeBottomElements(l, groupId) <==> Below(Links(l), groupId, x) {
      if x in GetTreeBottomElements(l, groupId) {
        ForestSound(l, ChildrenOf(l, groupId), groupId, x);
      }
      if Below(Links(l), groupId, x) {
        DescendantsComplete(l, groupId, x);
      }
    }
  }

  ghost predicate NoDup(s: seq<Uuid>) {
    forall i, j :: 0 <= i < j < |s| ==> s[i] != s[j]
  }

  lemma NoDupConcat(a: seq<Uuid>, b: seq<Uuid>)
    requires NoDup(a) && NoDup(b) && forall x :: x in a ==> x !in b
    ensures NoDup(a + b)
  {
    forall i, j | 0 <= i < j < |a + b| ensures (a + b)[i] != (a + b)[j] {
      if i < |a| && j >= |a| {
        assert (a + b)[i] in a && (a + b)[j] == b[j - |a|];
      }
    }
  }

  /** Two listed children cannot share a branch: the branch names the child. */
  lemma SameBranchSameChild(l: seq<Group>, cs: seq<Group>, parent: Uuid, y: Uuid, z: Uuid)
    requires TreeShaped(l) && ChildrenIn(l, cs, parent) && UniqueIds(cs) && 0 < |cs|
    requires Below(Links(l), parent, y) && Branch(Links(l), parent, y) == cs[0].Id
    requires z in Forest(l, cs[1..], parent)
    ensures y != z
  {
    ForestSound(l, cs[1..], parent, z);
    var c :| c in cs[1..] && c.Id == Branch(Links(l), parent, z);
    var j :| 0 <= j < |cs[1..]| && cs[1..][j] == c;
    assert cs[j + 1] == c;
  }

  /** Each id is listed at most once. */
  lemma {:induction false} ForestNoDup(l: seq<Group>, cs: seq<Group>, parent: Uuid)
    requires TreeShaped(l) && ChildrenIn(l, cs, parent) && UniqueIds(cs)
    ensures NoDup(Forest(l, cs, parent))
    decreases Down(Links(l), parent), 0, |cs|
  {
    if |cs| > 0 {
      var c0 := cs[0];
      assert c0 in l;
      DownChild(l, c0, parent);
      var sub := CompileTreeBottomElements(l, c0.Id);
      var rest := Forest(l, cs[1..], parent);
      ChildrenOfUnique(l, c0.Id);
      ForestNoDup(l, ChildrenOf(l, c0.Id), c0.Id);
      ForestNoDup(l, cs[1..], parent);
      FirstBranchApart(l, cs, parent);
      NoDupConcat([c0.Id], sub);
      NoDupConcat([c0.Id] + sub, rest);
    }
  }

  /**
   * The first child and its subtree share no id with the forest of the remaining
   * children, and the child is not in its own subtree.
   */
  lemma FirstBranchApart(l: seq<Group>, cs: seq<Group>, parent: Uuid)
    requires TreeShaped(l) && ChildrenIn(l, cs, parent) && UniqueIds(cs) && 0 < |cs|
    ensures forall y :: y in [cs[0].Id] + CompileTreeBottomElements(l, cs[0].Id) ==> y !in Forest(l, cs[1..], parent)
    ensures forall y :: y in [cs[0].Id] ==> y !in CompileTreeBottomElements(l, cs[0].Id)
  {
    var ls := Links(l);
    var c0 := cs[0];
    assert c0 in l;
    var i :| 0 <= i < |l| && l[i] == c0;
    LinkParentAt(ls, i);
    var sub := CompileTreeBottomElements(l, c0.Id);
    var rest := Forest(l, cs[1..], parent);
    forall y | y in [c0.Id] + sub ensures y !in rest {
      if y in sub {
        SubtreeSound(l, c0.Id, y);
      }
      BranchChar(ls, parent, c0.Id, y);
      if y in rest {
        SameBranchSameChild(l, cs, parent, y, y);
      }
    }
    if c0.Id in sub {
      SubtreeSound(l, c0.Id, c0.Id);
    }
  }

  /** getTreeBottomElements lists every descendant exactly once. */
  lemma DescendantsNoDup(l: seq<Group>, groupId: Uuid)
    requires TreeShaped(l)
    ensures NoDup(GetTreeBottomElements(l, groupId))
  {
    ChildrenOfUnique(l, groupId);
    ForestNoDup(l, ChildrenOf(l, groupId), groupId);
  }

  /** s lists every group before the groups below it. */
  ghost predicate PreOrder(ls: seq<Link>, s: seq<Uuid>)
    requires Acyclic(ls)
  {
    forall i, j :: 0 <= i < |s| && 0 <= j < |s| && Below(ls, s[i], s[j]) ==> i < j
  }

  /** Facts about the first child c0 of a non-empty child list. */
  lemma FirstChild(l: seq<Group>, cs: seq<Group>, parent: Uuid)
    requires TreeShaped(l) && ChildrenIn(l, cs, parent) && |cs| > 0
    ensures cs[0] in l && cs[0].Id != Nil
    ensures Down(Links(l), cs[0].Id) < Down(Links(l), parent)
    ensures LinkParent(Links(l), cs[0].Id) == Some(parent)
    ensures Forest(l, cs, parent) ==
      [cs[0].Id] + CompileTreeBottomElements(l, cs[0].Id) + Forest(l, cs[1..], parent)
  {
    assert cs[0] in l;
    DownChild(l, cs[0], parent);
    BelowRankOfId(l, cs[0]);
    var i0 :| 0 <= i0 < |l| && l[i0] == cs[0];
    LinkParentAt(Links(l), i0);
  }

  lemma InMiddle(x: Uuid, a: seq<Uuid>, b: seq<Uuid>, k: nat)
    requires 1 <= k < 1 + |a|
    ensures ([x] + a + b)[k] == a[k - 1]
  {
  }

  lemma InLast(x: Uuid, a: seq<Uuid>, b: seq<Uuid>, k: nat)
    requires 1 + |a| <= k < 1 + |a| + |b|
    ensures ([x] + a + b)[k] == b[k - 1 - |a|]
  {
  }

  /** A descendant of a group listed inside the first child's block stays in that block. */
  lemma PreOrderInFirstBlock(l: seq<Group>, cs: seq<Group>, parent: Uuid, i: nat, j: nat)
    requires TreeShaped(l) && ChildrenIn(l, cs, parent) && UniqueIds(cs) && |cs| > 0
    requires 1 <= i < 1 + |CompileTreeBottomElements(l, cs[0].Id)|
    requires j < |Forest(l, cs, parent)|
    requires Below(Links(l), Forest(l, cs, parent)[i], Forest(l, cs, parent)[j])
    ensures 1 <= j < 1 + |CompileTreeBottomElements(l, cs[0].Id)|
  {
    var ls := Links(l);
    FirstChild(l, cs, parent);
    var sub := CompileTreeBottomElements(l, cs[0].Id);
    var rest := Forest(l, cs[1..], parent);
    var s := Forest(l, cs, parent);
    InMiddle(cs[0].Id, sub, rest, i);
    SubtreeSound(l, cs[0].Id, s[i]);
    HopsTrans(ls, cs[0].Id, s[i], s[j]);
    BranchChar(ls, parent, cs[0].Id, s[j]);
    if j >= 1 + |sub| {
      InLast(cs[0].Id, sub, rest, j);
      SameBranchSameChild(l, cs, parent, s[j], s[j]);
    }
    BelowRank(ls, s[i], s[j]);
  }

  /** A descendant of a group listed after the first child's block is listed there too. */
  lemma PreOrderInRest(l: seq<Group>, cs: seq<Group>, parent: Uuid, i: nat, j: nat)
    requires TreeShaped(l) && ChildrenIn(l, cs, parent) && UniqueIds(cs) && |cs| > 0
    requires 1 + |CompileTreeBottomElements(l, cs[0].Id)| <= i < |Forest(l, cs, parent)|
    requires j < |Forest(l, cs, parent)|
    requires Below(Links(l), Forest(l, cs, parent)[i], Forest(l, cs, parent)[j])
    ensures 1 + |CompileTreeBottomElements(l, cs[0].Id)| <= j
  {
    var ls := Links(l);
    FirstChild(l, cs, parent);
    var sub := CompileTreeBottomElements(l, cs[0].Id);
    var rest := Forest(l, cs[1..], parent);
    var s := Forest(l, cs, parent);
    InLast(cs[0].Id, sub, rest, i);
    var c := LaterBranch(l, cs, parent, s[i]);
    HopsTrans(ls, c.Id, s[i], s[j]);
    BranchChar(ls, parent, c.Id, s[j]);
    if j == 0 {
      assert false;
    } else if j < 1 + |sub| {
      InMiddle(cs[0].Id, sub, rest, j);
      SubtreeSound(l, cs[0].Id, s[j]);
      BranchChar(ls, parent, cs[0].Id, s[j]);
    }
  }

  /** A group listed in the forest of the later children lies below one of them, not below the first. */
  lemma LaterBranch(l: seq<Group>, cs: seq<Group>, parent: Uuid, y: Uuid) returns (c: Group)
    requires TreeShaped(l) && ChildrenIn(l, cs, parent) && UniqueIds(cs) && |cs| > 0
    requires y in Forest(l, cs[1..], parent)
    ensures c in l && c.Id != cs[0].Id && LinkParent(Links(l), c.Id) == Some(parent)
    ensures Hops(Links(l), c.Id, y).Some?
  {
    var ls := Links(l);
    ForestSound(l, cs[1..], parent, y);
    c :| c in cs[1..] && c.Id == Branch(ls, parent, y);
    var k :| 0 <= k < |cs[1..]| && cs[1..][k] == c;
    assert cs[k + 1] == c && c in l;
    var ic :| 0 <= ic < |l| && l[ic] == c;
    LinkParentAt(ls, ic);
    BranchChar(ls, parent, c.Id, y);
  }

  lemma {:induction false} ForestPreOrder(l: seq<Group>, cs: seq<Group>, parent: Uuid)
    requires TreeShaped(l) && ChildrenIn(l, cs, parent) && UniqueIds(cs)
    ensures PreOrder(Links(l), Forest(l, cs, parent))
    decreases Down(Links(l), parent), 0, |cs|
  {
    if |cs| > 0 {
      var ls := Links(l);
      FirstChild(l, cs, parent);
      var sub := CompileTreeBottomElements(l, cs[0].Id);
      var rest := Forest(l, cs[1..], parent);
      var s := Forest(l, cs, parent);
      ChildrenOfUnique(l, cs[0].Id);
      ForestPreOrder(l, ChildrenOf(l, cs[0].Id), cs[0].Id);
      ForestPreOrder(l, cs[1..], parent);
      forall i, j | 0 <= i < |s| && 0 <= j < |s| && Below(ls, s[i], s[j]) ensures i < j {
        if i == 0 {
          BelowRank(ls, s[i], s[j]);
        } else if i < 1 + |sub| {
          PreOrderInFirstBlock(l, cs, parent, i, j);
          InMiddle(cs[0].Id, sub, rest, i);
          InMiddle(cs[0].Id, sub, rest, j);
          assert Below(ls, sub[i - 1], sub[j - 1]);
        } else {
          PreOrderInRest(l, cs, parent, i, j);
          InLast(cs[0].Id, sub, rest, i);
          InLast(cs[0].Id, sub, rest, j);
          assert Below(ls, rest[i - 1 - |sub|], rest[j - 1 - |sub|]);
        }
      }
    }
  }

  /** getTreeBottomElements is a pre-order listing: each group precedes its own descendants. */
  lemma DescendantsPreOrder(l: seq<Group>, groupId: Uuid)
    requires TreeShaped(l)
    ensures PreOrder(Links(l), GetTreeBottomElements(l, groupId))
  {
    ChildrenOfUnique(l, groupId);
    ForestPreOrder(l, ChildrenOf(l, groupId), groupId);
  }
}
