/**
 * Breadcrumb: GetTreeTop / CompileTreeTop, the root-first path of (id, name)
 * pairs from the top of the tree down to a group, followed by a device entry.
 */
module Breadcrumb {
  import opened Groups
  import opened Hierarchy
  import Traversal

  /** One breadcrumb entry. */
  datatype Tree = Tree(Id: Uuid, Name: string)

  /**
   * CompileTreeTop: while parentId resolves to a group, put that group in front of
   * the breadcrumb built so far and continue with its parent.
   */
  function CompileTreeTop(l: seq<Group>, tree: seq<Tree>, parentId: Uuid): (r: seq<Tree>)
    requires Acyclic(Links(l))
    ensures |r| >= |tree| && r[|r| - |tree|..] == tree
    decreases Up(Links(l), parentId)
  {
    if parentId == Nil then tree
    else
      var g := GetBatchElementById(l, parentId);
      if g.Id == Nil then tree
      else
        Traversal.LinkParentOfGroup(l, parentId);
        UpStep(Links(l), parentId, g.ParentId);
        var t := [Tree(g.Id, g.Name)] + tree;
        var r := CompileTreeTop(l, t, g.ParentId);
        SuffixOfSuffix(r, t, tree);
        r
  }

  /** The tail of a suffix is a suffix. */
  lemma SuffixOfSuffix(r: seq<Tree>, t: seq<Tree>, tree: seq<Tree>)
    requires |t| == |tree| + 1 && t[1..] == tree
    requires |r| >= |t| && r[|r| - |t|..] == t
    ensures |r| >= |tree| && r[|r| - |tree|..] == tree
  {
    assert r[|r| - |tree|..] == r[|r| - |t|..][1..];
  }

  /** The device entry: its name followed by its host in parentheses. */
  function DeviceEntry(deviceId: Uuid, deviceName: string, deviceHost: string): (r: Tree)
    ensures r.Id == deviceId
    ensures |r.Name| == |deviceName| + |deviceHost| + 3
    ensures r.Name[..|deviceName|] == deviceName
    ensures r.Name[|deviceName|..|deviceName| + 2] == " (" && r.Name[|r.Name| - 1] == ')'
    ensures r.Name[|deviceName| + 2..|r.Name| - 1] == deviceHost
  {
    Tree(deviceId, deviceName + " (" + deviceHost + ")")
  }

  /** GetTreeTop: empty for an unknown group, else its ancestors, the group, then the device. */
  function GetTreeTop(l: seq<Group>, groupId: Uuid, deviceId: Uuid, deviceName: string, deviceHost: string): (r: seq<Tree>)
    requires Acyclic(Links(l))
    ensures !HasId(l, groupId) ==> r == []
    ensures HasId(l, groupId) ==>
      && |r| >= 2
      && r[|r| - 2] == Tree(groupId, GetBatchElementById(l, groupId).Name)
      && r[|r| - 1] == DeviceEntry(deviceId, deviceName, deviceHost)
  {
    var g := GetBatchElementById(l, groupId);
    if g.Id == Nil then
      Traversal.NilNeverAnId(l);
      []
    else
      var r := CompileTreeTop(l, [Tree(groupId, g.Name), DeviceEntry(deviceId, deviceName, deviceHost)], g.ParentId);
      assert r[|r| - 2..] == [Tree(groupId, g.Name), DeviceEntry(deviceId, deviceName, deviceHost)];
      assert r[|r| - 2] == r[|r| - 2..][0];
      r
  }

  /** The parent of a group is Nil or is not in the list: a walk up stops there. */
  predicate Unresolvable(l: seq<Group>, parentId: Uuid) {
    parentId == Nil || !HasId(l, parentId)
  }

  /**
   * Reference definition of the breadcrumb path: the resolvable ancestor chain of x,
   * root-first and ending with x itself, built by appending rather than prepending.
   */
  ghost function Chain(l: seq<Group>, x: Uuid): (c: seq<Uuid>)
    requires Acyclic(Links(l))
    decreases Up(Links(l), x)
  {
    if Unresolvable(l, x) then []
    else
      var p := GetBatchElementById(l, x).ParentId;
      Traversal.LinkParentOfGroup(l, x);
      UpStep(Links(l), x, p);
      Chain(l, p) + [x]
  }

  /** The breadcrumb entries for a sequence of ids: each id with its group's name. */
  ghost function Entries(l: seq<Group>, ids: seq<Uuid>): (t: seq<Tree>)
    ensures |t| == |ids|
    ensures forall i :: 0 <= i < |ids| ==> t[i] == Tree(ids[i], GetBatchElementById(l, ids[i]).Name)
  {
    seq(|ids|, i requires 0 <= i < |ids| => Tree(ids[i], GetBatchElementById(l, ids[i]).Name))
  }

  /** The chain is empty exactly at an unresolvable id, and it starts where the walk up stops. */
  lemma {:induction false} ChainEnds(l: seq<Group>, x: Uuid)
    requires Acyclic(Links(l))
    ensures Chain(l, x) == [] <==> Unresolvable(l, x)
    ensures Chain(l, x) != [] ==>
      Chain(l, x)[|Chain(l, x)| - 1] == x && Unresolvable(l, GetBatchElementById(l, Chain(l, x)[0]).ParentId)
    decreases Up(Links(l), x)
  {
    if !Unresolvable(l, x) {
      var p := GetBatchElementById(l, x).ParentId;
      Traversal.LinkParentOfGroup(l, x);
      UpStep(Links(l), x, p);
      ChainEnds(l, p);
      var c' := Chain(l, p);
      assert Chain(l, x) == c' + [x];
      if c' != [] {
        assert (c' + [x])[0] == c'[0];
      }
    }
  }

  /**
   * The chain of x lists groups of l, and its entry k lies exactly |c| - 1 - k parent
   * steps above x.
   */
  lemma {:induction false} ChainIsAncestry(l: seq<Group>, x: Uuid)
    requires Acyclic(Links(l))
    ensures forall k :: 0 <= k < |Chain(l, x)| ==>
      HasId(l, Chain(l, x)[k]) && Hops(Links(l), Chain(l, x)[k], x) == Some(|Chain(l, x)| - 1 - k)
    decreases Up(Links(l), x)
  {
    if !Unresolvable(l, x) {
      var p := GetBatchElementById(l, x).ParentId;
      Traversal.LinkParentOfGroup(l, x);
      UpStep(Links(l), x, p);
      ChainIsAncestry(l, p);
      assert Chain(l, x) == Chain(l, p) + [x];
      AncestryStep(l, Chain(l, p), x, p);
    }
  }

  /** Ancestors of a group's parent, listed root-first, followed by the group, are the group's ancestors. */
  lemma AncestryStep(l: seq<Group>, c: seq<Uuid>, x: Uuid, p: Uuid)
    requires Acyclic(Links(l)) && HasId(l, x) && LinkParent(Links(l), x) == Some(p)
    requires forall k :: 0 <= k < |c| ==> HasId(l, c[k]) && Hops(Links(l), c[k], p) == Some(|c| - 1 - k)
    ensures forall k :: 0 <= k < |c + [x]| ==>
      HasId(l, (c + [x])[k]) && Hops(Links(l), (c + [x])[k], x) == Some(|c + [x]| - 1 - k)
  {
    forall k | 0 <= k < |c + [x]|
      ensures HasId(l, (c + [x])[k]) && Hops(Links(l), (c + [x])[k], x) == Some(|c + [x]| - 1 - k)
    {
      if k < |c| {
        assert (c + [x])[k] == c[k];
        assert Hops(Links(l), c[k], p) == Some(|c| - 1 - k);
        NotAboveOwnParent(Links(l), x, p, c[k]);
      } else {
        assert (c + [x])[k] == x;
        assert Hops(Links(l), x, x) == Some(0);
      }
    }
  }

  /** A group cannot lie on the ancestor chain of its own parent. */
  lemma NotAboveOwnParent(ls: seq<Link>, x: Uuid, p: Uuid, a: Uuid)
    requires Acyclic(ls) && LinkParent(ls, x) == Some(p) && Hops(ls, a, p).Some?
    ensures a != x
    ensures Hops(ls, a, x) == Some(Hops(ls, a, p).value + 1)
  {
    if a == x {
      HopsParent(ls, x, p, p);
    }
  }

  lemma AppendTwo<T>(s: seq<T>, x: T, y: T)
    ensures s + [x, y] == (s + [x]) + [y]
  {
  }

  lemma EntriesSnoc(l: seq<Group>, ids: seq<Uuid>, x: Uuid)
    ensures Entries(l, ids + [x]) == Entries(l, ids) + [Tree(x, GetBatchElementById(l, x).Name)]
  {
  }

  lemma SnocAssoc<T>(a: seq<T>, e: T, t: seq<T>)
    ensures a + ([e] + t) == (a + [e]) + t
  {
  }

  /** The prepending walk puts the entries of the chain of parentId in front of the breadcrumb so far. */
  lemma {:induction false} CompileTreeTopChain(l: seq<Group>, tree: seq<Tree>, parentId: Uuid)
    requires Acyclic(Links(l))
    ensures CompileTreeTop(l, tree, parentId) == Entries(l, Chain(l, parentId)) + tree
    decreases Up(Links(l), parentId)
  {
    if !Unresolvable(l, parentId) {
      var g := GetBatchElementById(l, parentId);
      Traversal.LinkParentOfGroup(l, parentId);
      UpStep(Links(l), parentId, g.ParentId);
      var e := Tree(g.Id, g.Name);
      CompileTreeTopChain(l, [e] + tree, g.ParentId);
      EntriesSnoc(l, Chain(l, g.ParentId), parentId);
      SnocAssoc(Entries(l, Chain(l, g.ParentId)), e, tree);
    } else if parentId != Nil {
      Traversal.NilNeverAnId(l);
    }
  }

  /**
   * GetTreeTop is the chain of the group (its resolvable ancestors root-first, then the
   * group itself), each with its name, followed by the device entry; empty for an
   * unknown group.
   */
  lemma GetTreeTopIsChain(l: seq<Group>, groupId: Uuid, deviceId: Uuid, deviceName: string, deviceHost: string)
    requires Acyclic(Links(l))
    ensures HasId(l, groupId) ==>
      GetTreeTop(l, groupId, deviceId, deviceName, deviceHost)
        == Entries(l, Chain(l, groupId)) + [DeviceEntry(deviceId, deviceName, deviceHost)]
  {
    if HasId(l, groupId) {
      Traversal.NilNeverAnId(l);
      var g := GetBatchElementById(l, groupId);
      var d := DeviceEntry(deviceId, deviceName, deviceHost);
      CompileTreeTopChain(l, [Tree(groupId, g.Name), d], g.ParentId);
      EntriesSnoc(l, Chain(l, g.ParentId), groupId);
      AppendTwo(Entries(l, Chain(l, g.ParentId)), Tree(groupId, g.Name), d);
    }
  }
}
