/**
 * Groups: the group record and the read-only scans over a list of groups
 * (the current-state list `listBatch` or the pending-write queue `createBatch`).
 */
module Groups {

  /** Group identifiers are opaque; `Nil` is the "no group" sentinel (uuid.Nil). */
  type Uuid = nat
  const Nil: Uuid := 0

  datatype Option<T> = None | Some(value: T)

  datatype Result<T, E> = Ok(value: T) | Err(error: E)

  /** The failure kinds the cache reports instead of localized message strings. */
  datatype GroupError =
    | NotFound           // the group to delete does not exist
    | NoMainGroup        // the tree has no main group
    | NoOfficeGroup      // no office group for the given office
    | StoreFailure       // the persistent store refused the operation

  /** One node of the organizational tree, with the fields the cache reads and writes. */
  datatype Group = Group(
    Id: Uuid,
    Name: string,
    ParentId: Uuid,
    DepthLevel: int,
    Main: bool,
    Active: bool,
    OfficeGroup: bool,
    Office: Uuid)

  /** Go's zero value `entity.Group{}`: what a failed lookup returns. */
  const ZeroGroup := Group(Nil, "", Nil, 0, false, false, false, Nil)

  predicate HasId(s: seq<Group>, id: Uuid) {
    exists i :: 0 <= i < |s| && s[i].Id == id
  }

  ghost predicate UniqueIds(s: seq<Group>) {
    forall i, j :: 0 <= i < j < |s| ==> s[i].Id != s[j].Id
  }

  /** Index of the first group with the given id, or -1 (slices.IndexFunc on `g.Id == id`). */
  function IndexOfId(s: seq<Group>, id: Uuid): (k: int)
    ensures -1 <= k < |s|
    ensures k == -1 <==> !HasId(s, id)
    ensures 0 <= k ==> s[k].Id == id && forall i :: 0 <= i < k ==> s[i].Id != id
  {
    if |s| == 0 then -1
    else if s[0].Id == id then 0
    else
      var k := IndexOfId(s[1..], id);
      if k == -1 then
        assert forall i :: 1 <= i < |s| ==> s[i].Id == s[1..][i - 1].Id;
        -1
      else k + 1
  }

  /** With unique ids, the group at index i is the one the id scan finds. */
  lemma IndexOfUnique(s: seq<Group>, i: nat)
    requires UniqueIds(s) && i < |s|
    ensures IndexOfId(s, s[i].Id) == i
  {
  }

  /** GetBatchElementById: the first group with that id, or the zero group. */
  function GetBatchElementById(l: seq<Group>, id: Uuid): (g: Group)
    ensures !HasId(l, id) ==> g == ZeroGroup
    ensures HasId(l, id) ==>
      exists k :: 0 <= k < |l| && l[k] == g && g.Id == id && forall j :: 0 <= j < k ==> l[j].Id != id
  {
    var k := IndexOfId(l, id);
    if k == -1 then ZeroGroup else l[k]
  }

  /** The direct children of `parent`, in list order (the specification of GetBatchElementsByParentId). */
  function ChildrenOf(l: seq<Group>, parent: Uuid): (r: seq<Group>)
    ensures |r| <= |l|
    ensures forall g :: g in r <==> g in l && g.ParentId == parent
  {
    if |l| == 0 then []
    else if l[0].ParentId == parent then [l[0]] + ChildrenOf(l[1..], parent)
    else ChildrenOf(l[1..], parent)
  }

  /** Filtering commutes with concatenation: the children keep their relative list order. */
  lemma {:induction false} ChildrenOfAppend(a: seq<Group>, b: seq<Group>, parent: Uuid)
    ensures ChildrenOf(a + b, parent) == ChildrenOf(a, parent) + ChildrenOf(b, parent)
  {
    if |a| == 0 {
      assert a + b == b;
    } else {
      assert (a + b)[1..] == a[1..] + b;
      ChildrenOfAppend(a[1..], b, parent);
    }
  }

  /** No child at all exactly when the scan comes back empty. */
  lemma ChildrenOfEmpty(l: seq<Group>, parent: Uuid)
    ensures ChildrenOf(l, parent) == [] <==> forall i :: 0 <= i < |l| ==> l[i].ParentId != parent
  {
    if ChildrenOf(l, parent) != [] {
      assert ChildrenOf(l, parent)[0] in ChildrenOf(l, parent);
    } else {
      forall i | 0 <= i < |l| ensures l[i].ParentId != parent {
        assert l[i] in l;
      }
    }
  }

  /** The children of a parent in a list with unique ids have unique ids. */
  lemma {:induction false} ChildrenOfUnique(l: seq<Group>, parent: Uuid)
    requires UniqueIds(l)
    ensures UniqueIds(ChildrenOf(l, parent))
  {
    if |l| > 0 {
      ChildrenOfUnique(l[1..], parent);
      var rest := ChildrenOf(l[1..], parent);
      forall g | g in rest ensures g.Id != l[0].Id {
        var i :| 0 <= i < |l[1..]| && l[1..][i] == g;
        assert l[i + 1] == g;
      }
    }
  }

  /** Index of the first main group, or -1. */
  function IndexOfMain(l: seq<Group>): (k: int)
    ensures -1 <= k < |l|
    ensures k == -1 <==> forall i :: 0 <= i < |l| ==> !l[i].Main
    ensures 0 <= k ==> l[k].Main && forall i :: 0 <= i < k ==> !l[i].Main
  {
    if |l| == 0 then -1
    else if l[0].Main then 0
    else
      var k := IndexOfMain(l[1..]);
      if k == -1 then
        assert forall i :: 1 <= i < |l| ==> l[i] == l[1..][i - 1];
        -1
      else k + 1
  }

  /** GetMainGroupUuid: the id of the first main group, or an invariant-violation error. */
  function GetMainGroupUuid(l: seq<Group>): (r: Result<Uuid, GroupError>)
    ensures r.Err? <==> forall i :: 0 <= i < |l| ==> !l[i].Main
    ensures r.Err? ==> r.error == NoMainGroup
    ensures r.Ok? ==> exists k :: 0 <= k < |l| && l[k].Main && l[k].Id == r.value && forall j :: 0 <= j < k ==> !l[j].Main
  {
    var k := IndexOfMain(l);
    if k == -1 then Err(NoMainGroup) else Ok(l[k].Id)
  }

  predicate IsOfficeGroupOf(g: Group, office: Uuid) {
    g.OfficeGroup && g.Office == office
  }

  /** Index of the first office group of `office`, or -1. */
  function IndexOfOfficeGroup(l: seq<Group>, office: Uuid): (k: int)
    ensures -1 <= k < |l|
    ensures k == -1 <==> forall i :: 0 <= i < |l| ==> !IsOfficeGroupOf(l[i], office)
    ensures 0 <= k ==> IsOfficeGroupOf(l[k], office) && forall i :: 0 <= i < k ==> !IsOfficeGroupOf(l[i], office)
  {
    if |l| == 0 then -1
    else if IsOfficeGroupOf(l[0], office) then 0
    else
      var k := IndexOfOfficeGroup(l[1..], office);
      if k == -1 then
        assert forall i :: 1 <= i < |l| ==> l[i] == l[1..][i - 1];
        -1
      else k + 1
  }

  /** GetOfficeGroupUuid: the id of the first office group of `office`, or an error. */
  function GetOfficeGroupUuid(l: seq<Group>, office: Uuid): (r: Result<Uuid, GroupError>)
    ensures r.Err? <==> forall i :: 0 <= i < |l| ==> !IsOfficeGroupOf(l[i], office)
    ensures r.Err? ==> r.error == NoOfficeGroup
    ensures r.Ok? ==> exists k :: 0 <= k < |l| && IsOfficeGroupOf(l[k], office) && l[k].Id == r.value
                                  && forall j :: 0 <= j < k ==> !IsOfficeGroupOf(l[j], office)
  {
    var k := IndexOfOfficeGroup(l, office);
    if k == -1 then Err(NoOfficeGroup) else Ok(l[k].Id)
  }

  /** Find-or-replace by id, the bookkeeping UpdateBatch applies to both lists. */
  function Upsert(s: seq<Group>, g: Group): (r: seq<Group>)
    ensures HasId(s, g.Id) ==>
      |r| == |s| && r[IndexOfId(s, g.Id)] == g &&
      forall i :: 0 <= i < |s| && i != IndexOfId(s, g.Id) ==> r[i] == s[i]
    ensures !HasId(s, g.Id) ==> |r| == |s| + 1 && r[..|s|] == s && r[|s|] == g
  {
    var k := IndexOfId(s, g.Id);
    if k == -1 then s + [g] else s[k := g]
  }

  /** Upsert keeps "one entry per id": the pending queue never holds two versions of a group. */
  lemma UpsertKeepsUnique(s: seq<Group>, g: Group)
    requires UniqueIds(s)
    ensures UniqueIds(Upsert(s, g))
  {
    var r := Upsert(s, g);
    if !HasId(s, g.Id) {
      forall i, j | 0 <= i < j < |r| ensures r[i].Id != r[j].Id {
        if j == |s| {
          assert r[i] == s[i];
        } else {
          assert r[i] == s[i] && r[j] == s[j];
        }
      }
    }
  }

  /** An upsert is visible to the next lookup by id, whether or not the ids were unique. */
  lemma UpsertThenLookup(s: seq<Group>, g: Group)
    ensures GetBatchElementById(Upsert(s, g), g.Id) == g
  {
    var r := Upsert(s, g);
    var k := IndexOfId(s, g.Id);
    if k == -1 {
      assert forall i :: 0 <= i < |s| ==> r[i] == s[i];
      assert IndexOfId(r, g.Id) == |s|;
    } else {
      assert IndexOfId(r, g.Id) == k;
    }
  }

  /** An upsert leaves the lookup of every other id unchanged. */
  lemma UpsertLookupOther(s: seq<Group>, g: Group, id: Uuid)
    requires id != g.Id
    ensures GetBatchElementById(Upsert(s, g), id) == GetBatchElementById(s, id)
  {
    var r := Upsert(s, g);
    var k := IndexOfId(s, id);
    if HasId(s, g.Id) {
      assert forall i :: 0 <= i < |s| ==> r[i].Id == s[i].Id;
      if k != -1 {
        assert IndexOfId(r, id) == k;
      } else {
        assert !HasId(r, id);
      }
    } else {
      assert forall i :: 0 <= i < |s| ==> r[i] == s[i];
      if k != -1 {
        assert IndexOfId(r, id) == k;
      } else {
        assert !HasId(r, id);
      }
    }
  }

  /** The list with the element at index k spliced out (append(s[:k], s[k+1:]...)). */
  function RemoveAt(s: seq<Group>, k: nat): (r: seq<Group>)
    requires k < |s|
    ensures |r| == |s| - 1
    ensures forall i :: 0 <= i < k ==> r[i] == s[i]
    ensures forall i :: k <= i < |r| ==> r[i] == s[i + 1]
  {
    s[..k] + s[k + 1..]
  }

  /** Deleting the element found for `id` makes `id` unresolvable when ids are unique. */
  lemma RemoveFoundGone(s: seq<Group>, id: Uuid)
    requires UniqueIds(s) && HasId(s, id)
    ensures !HasId(RemoveAt(s, IndexOfId(s, id)), id)
    ensures UniqueIds(RemoveAt(s, IndexOfId(s, id)))
    ensures forall x :: x != id ==> (HasId(RemoveAt(s, IndexOfId(s, id)), x) <==> HasId(s, x))
  {
    var k := IndexOfId(s, id);
    var r := RemoveAt(s, k);
    forall x | x != id ensures HasId(r, x) <==> HasId(s, x) {
      if HasId(s, x) {
        var i :| 0 <= i < |s| && s[i].Id == x;
        if i < k { assert r[i].Id == x; } else { assert i != k; assert r[i - 1].Id == x; }
      }
    }
  }

  /** Only the main groups, in list order: what ResetGroupsTable leaves in the cache. */
  function KeepMain(l: seq<Group>): (r: seq<Group>)
    ensures |r| <= |l|
    ensures forall g :: g in r <==> g in l && g.Main
  {
    if |l| == 0 then []
    else if l[0].Main then [l[0]] + KeepMain(l[1..])
    else KeepMain(l[1..])
  }

  /** Number of non-main groups. */
  function CountNonMain(l: seq<Group>): nat {
    if |l| == 0 then 0 else (if l[0].Main then 0 else 1) + CountNonMain(l[1..])
  }

  /** The reset removes exactly as many entries as there are non-main groups. */
  lemma {:induction false} KeepMainCount(l: seq<Group>)
    ensures |KeepMain(l)| == |l| - CountNonMain(l)
  {
    if |l| > 0 {
      KeepMainCount(l[1..]);
    }
  }

  /** Filtering commutes with concatenation: the main groups keep their relative order. */
  lemma {:induction false} KeepMainAppend(a: seq<Group>, b: seq<Group>)
    ensures KeepMain(a + b) == KeepMain(a) + KeepMain(b)
  {
    if |a| == 0 {
      assert a + b == b;
    } else {
      assert (a + b)[1..] == a[1..] + b;
      KeepMainAppend(a[1..], b);
    }
  }

  /** A list of main groups only is left as it is. */
  lemma {:induction false} KeepMainAllMain(l: seq<Group>)
    requires forall k :: 0 <= k < |l| ==> l[k].Main
    ensures KeepMain(l) == l
  {
    if |l| > 0 {
      KeepMainAllMain(l[1..]);
    }
  }

  /** Main groups followed by one non-main group: the reset drops exactly that last group. */
  lemma KeepMainButLast(l: seq<Group>)
    requires |l| > 0 && !l[|l| - 1].Main
    requires forall k :: 0 <= k < |l| - 1 ==> l[k].Main
    ensures KeepMain(l) == l[..|l| - 1]
  {
    var front := l[..|l| - 1];
    var last := [l[|l| - 1]];
    assert l == front + last;
    KeepMainAppend(front, last);
    assert forall k :: 0 <= k < |front| ==> front[k] == l[k];
    KeepMainAllMain(front);
    assert last[1..] == [];
    assert KeepMain(last) == KeepMain(last[1..]) == [];
  }
}
