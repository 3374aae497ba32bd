/**
 * ConsistencyGuard: CheckParentId, the validator run before a group is given a new
 * parent (or before its subgroups are relinked elsewhere). It refuses every move that
 * would make a group its own ancestor.
 */
module ConsistencyGuard {
  import opened Groups
  import opened Hierarchy
  import opened Traversal

  /**
   * The reasons CheckParentId gives, in place of its localized messages; `forRelink`
   * records which of the two message families the reason belongs to.
   */
  datatype Rejection =
    | MainGroupMissing                         // relink only: the tree has no main group
    | MoveIntoMainGroup                        // relink only: the target is the main group
    | OwnParent(forRelink: bool)               // the target is the group itself
    | TargetMissingOrInactive(forRelink: bool) // no active group carries the target id
    | TargetIsDescendant(forRelink: bool)      // the target lies below the group

  predicate IsActiveWithId(g: Group, id: Uuid) {
    g.Id == id && g.Active
  }

  /** Index of the first active group with the given id, or -1. */
  function IndexOfActive(l: seq<Group>, id: Uuid): (k: int)
    ensures -1 <= k < |l|
    ensures k == -1 <==> forall i :: 0 <= i < |l| ==> !IsActiveWithId(l[i], id)
    ensures 0 <= k ==> IsActiveWithId(l[k], id) && forall i :: 0 <= i < k ==> !IsActiveWithId(l[i], id)
  {
    if |l| == 0 then -1
    else if IsActiveWithId(l[0], id) then 0
    else
      var k := IndexOfActive(l[1..], id);
      if k == -1 then
        assert forall i :: 1 <= i < |l| ==> l[i] == l[1..][i - 1];
        -1
      else k + 1
  }

  /** Some group with this id is active. */
  ghost predicate HasActiveGroup(l: seq<Group>, id: Uuid) {
    exists i :: 0 <= i < |l| && IsActiveWithId(l[i], id)
  }

  /**
   * CheckParentId: None when `id` may take `idToCheck` as its parent (or, for a relink,
   * when the subgroups of `id` may move under `idToCheck`), else the first reason to refuse.
   */
  function CheckParentId(l: seq<Group>, id: Uuid, idToCheck: Uuid, forRelink: bool): (v: Option<Rejection>)
    requires Acyclic(Links(l))
    ensures v.Some? && !forRelink ==> v.value.OwnParent? || v.value.TargetMissingOrInactive? || v.value.TargetIsDescendant?
    ensures v.Some? && (v.value.OwnParent? || v.value.TargetMissingOrInactive? || v.value.TargetIsDescendant?) ==>
      v.value.forRelink == forRelink
    ensures v == Some(OwnParent(forRelink)) ==> id == idToCheck
    ensures v == Some(TargetMissingOrInactive(forRelink)) ==> !HasActiveGroup(l, idToCheck)
    ensures v == Some(TargetIsDescendant(forRelink)) ==> idToCheck in GetTreeBottomElements(l, id)
    ensures v == Some(MainGroupMissing) ==> GetMainGroupUuid(l).Err?
    ensures v == Some(MoveIntoMainGroup) ==> GetMainGroupUuid(l) == Ok(idToCheck)
    ensures forRelink && GetMainGroupUuid(l).Err? ==> v == Some(MainGroupMissing)
    ensures forRelink && GetMainGroupUuid(l) == Ok(idToCheck) ==> v == Some(MoveIntoMainGroup)
    ensures !forRelink && id == idToCheck ==> v == Some(OwnParent(false))
    ensures (forRelink ==> GetMainGroupUuid(l).Ok? && GetMainGroupUuid(l).value != idToCheck) ==>
      && (id == idToCheck ==> v == Some(OwnParent(forRelink)))
      && (id != idToCheck && !HasActiveGroup(l, idToCheck) ==> v == Some(TargetMissingOrInactive(forRelink)))
      && (id != idToCheck && HasActiveGroup(l, idToCheck) && idToCheck in GetTreeBottomElements(l, id) ==>
            v == Some(TargetIsDescendant(forRelink)))
  {
    var main := GetMainGroupUuid(l);
    if forRelink && main.Err? then Some(MainGroupMissing)
    else if forRelink && main.value == idToCheck then Some(MoveIntoMainGroup)
    else if id == idToCheck then Some(OwnParent(forRelink))
    else if IndexOfActive(l, idToCheck) == -1 then Some(TargetMissingOrInactive(forRelink))
    else if idToCheck in GetTreeBottomElements(l, id) then Some(TargetIsDescendant(forRelink))
    else None
  }

  /**
   * On a tree-shaped list the validator accepts exactly the moves that keep the group
   * off its own ancestor chain: the target is another, active group that does not lie
   * below the group, and for a relink the main group exists and is not the target.
   */
  lemma CheckParentIdVerdict(l: seq<Group>, id: Uuid, idToCheck: Uuid, forRelink: bool)
    requires TreeShaped(l)
    ensures CheckParentId(l, id, idToCheck, forRelink).None? <==>
      && (forRelink ==> GetMainGroupUuid(l).Ok? && GetMainGroupUuid(l).value != idToCheck)
      && id != idToCheck
      && HasActiveGroup(l, idToCheck)
      && !Below(Links(l), id, idToCheck)
  {
    DescendantsExact(l, id);
  }
}
