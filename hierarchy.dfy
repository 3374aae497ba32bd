/**
 * Hierarchy: the parent graph of a group list, reduced to (id, parent) links.
 *
 * The recursive traversals of the cache terminate only when following `ParentId`
 * never comes back to where it started. `Acyclic` states that as the existence of a
 * rank on ids that strictly grows from child to parent; `Hops` is the ancestor chain
 * measured in parent steps, the reference against which descendants, depths and
 * breadcrumbs are stated.
 */
module Hierarchy {
  import opened Groups

  datatype Link = Link(id: Uuid, parent: Uuid)

  /** The shape of a list: ids and parents only (depth updates leave it unchanged). */
  function Links(l: seq<Group>): (ls: seq<Link>)
    ensures |ls| == |l|
    ensures forall i :: 0 <= i < |l| ==> ls[i] == Link(l[i].Id, l[i].ParentId)
  {
    seq(|l|, i requires 0 <= i < |l| => Link(l[i].Id, l[i].ParentId))
  }

  ghost predicate DistinctIds(ls: seq<Link>) {
    forall i, j :: 0 <= i < j < |ls| ==> ls[i].id != ls[j].id
  }

  /** `r` ranks every id below |ls|, never ranks Nil, and ranks each parent above its child. */
  ghost predicate RankedBy(ls: seq<Link>, r: map<Uuid, nat>) {
    && Nil !in r
    && forall i :: 0 <= i < |ls| ==>
         && ls[i].id in r
         && r[ls[i].id] < |ls|
         && (ls[i].parent in r ==> r[ls[i].id] < r[ls[i].parent])
  }

  /** No group is its own ancestor, and no group has the Nil id. */
  ghost predicate Acyclic(ls: seq<Link>) {
    exists r :: RankedBy(ls, r)
  }

  /** The invariant the traversals rely on: unique ids over an acyclic parent graph. */
  ghost predicate TreeShaped(l: seq<Group>) {
    UniqueIds(l) && Acyclic(Links(l))
  }

  ghost function RankOf(ls: seq<Link>): (r: map<Uuid, nat>)
    requires Acyclic(ls)
    ensures RankedBy(ls, r)
  {
    var r :| RankedBy(ls, r); r
  }

  /** Termination measure for walks from a parent down to its children. */
  ghost function Down(ls: seq<Link>, x: Uuid): nat
    requires Acyclic(ls)
  {
    var r := RankOf(ls);
    if x in r then r[x] else |ls|
  }

  /** Termination measure for walks from a child up to its parent. */
  ghost function Up(ls: seq<Link>, x: Uuid): nat
    requires Acyclic(ls)
  {
    var r := RankOf(ls);
    if x in r && r[x] < |ls| then |ls| - r[x] else 0
  }

  lemma DownStep(ls: seq<Link>, i: nat)
    requires Acyclic(ls) && i < |ls|
    ensures Down(ls, ls[i].id) < Down(ls, ls[i].parent)
  {
  }

  /** The parent recorded by the first link with id x (first match, like the lookups). */
  function LinkParent(ls: seq<Link>, x: Uuid): (p: Option<Uuid>)
    ensures p.None? <==> forall i :: 0 <= i < |ls| ==> ls[i].id != x
    ensures p.Some? ==> exists i :: 0 <= i < |ls| && ls[i] == Link(x, p.value)
  {
    if |ls| == 0 then None
    else if ls[0].id == x then Some(ls[0].parent)
    else
      var p := LinkParent(ls[1..], x);
      assert forall i :: 1 <= i < |ls| ==> ls[i] == ls[1..][i - 1];
      if p.Some? then
        assert exists i :: 0 <= i < |ls[1..]| && ls[1..][i] == Link(x, p.value);
        p
      else p
  }

  lemma LinkParentAt(ls: seq<Link>, i: nat)
    requires DistinctIds(ls) && i < |ls|
    ensures LinkParent(ls, ls[i].id) == Some(ls[i].parent)
  {
    if i > 0 {
      assert ls[0].id != ls[i].id;
      assert ls[1..][i - 1] == ls[i];
      LinkParentAt(ls[1..], i - 1);
    }
  }

  lemma UpStep(ls: seq<Link>, x: Uuid, p: Uuid)
    requires Acyclic(ls) && LinkParent(ls, x) == Some(p)
    ensures Up(ls, p) < Up(ls, x)
  {
    var i :| 0 <= i < |ls| && ls[i] == Link(x, p);
  }

  /**
   * Number of parent steps from x up to g: Some(0) when x == g, None when the
   * ancestor chain of x ends (Nil or an unknown parent) without meeting g.
   */
  ghost function Hops(ls: seq<Link>, g: Uuid, x: Uuid): Option<nat>
    requires Acyclic(ls)
    decreases Up(ls, x)
  {
    if x == g then Some(0)
    else match LinkParent(ls, x)
      case None => None
      case Some(p) =>
        UpStep(ls, x, p);
        match Hops(ls, g, p)
        case None => None
        case Some(k) => Some(k + 1)
  }

  /** x is a proper descendant of g: its ancestor chain passes through g. */
  ghost predicate Below(ls: seq<Link>, g: Uuid, x: Uuid)
    requires Acyclic(ls)
  {
    Hops(ls, g, x).Some? && Hops(ls, g, x).value >= 1
  }

  /** A proper descendant is a known id, ranked strictly below its ancestor. */
  lemma {:induction false} BelowRank(ls: seq<Link>, g: Uuid, x: Uuid)
    requires Acyclic(ls) && Below(ls, g, x)
    ensures x in RankOf(ls) && x != g && x != Nil
    ensures g in RankOf(ls) ==> RankOf(ls)[x] < RankOf(ls)[g]
    decreases Up(ls, x)
  {
    var p := LinkParent(ls, x).value;
    UpStep(ls, x, p);
    if p != g {
      BelowRank(ls, g, p);
    }
  }

  /** Moving the ancestor one step up adds one hop. */
  lemma {:induction false} HopsParent(ls: seq<Link>, c: Uuid, p: Uuid, x: Uuid)
    requires Acyclic(ls) && LinkParent(ls, c) == Some(p) && Hops(ls, c, x).Some?
    ensures Hops(ls, p, x) == Some(Hops(ls, c, x).value + 1)
    decreases Up(ls, x)
  {
    ParentNotReached(ls, c, p, x);
    if x == c {
      HopsStep(ls, p, x, p);
    } else {
      var q := LinkParent(ls, x).value;
      UpStep(ls, x, q);
      HopsStep(ls, c, x, q);
      HopsParent(ls, c, p, q);
      HopsStep(ls, p, x, q);
    }
  }

  /** The walk up from a descendant of c (or from c) never meets c's parent. */
  lemma ParentNotReached(ls: seq<Link>, c: Uuid, p: Uuid, x: Uuid)
    requires Acyclic(ls) && LinkParent(ls, c) == Some(p) && Hops(ls, c, x).Some?
    ensures x != p
  {
    var r := RankOf(ls);
    var i :| 0 <= i < |ls| && ls[i] == Link(c, p);
    assert c in r && (p in r ==> r[c] < r[p]);
    if x != c {
      BelowRank(ls, c, x);
    }
  }

  /** One step of the walk up from x, which is not g itself. */
  lemma HopsStep(ls: seq<Link>, g: Uuid, x: Uuid, q: Uuid)
    requires Acyclic(ls) && x != g && LinkParent(ls, x) == Some(q)
    ensures Hops(ls, g, x) == if Hops(ls, g, q).Some? then Some(Hops(ls, g, q).value + 1) else None
  {
  }

  /** Hop counts add up along a chain. */
  lemma {:induction false} HopsTrans(ls: seq<Link>, a: Uuid, b: Uuid, x: Uuid)
    requires Acyclic(ls) && Hops(ls, a, b).Some? && Hops(ls, b, x).Some?
    ensures Hops(ls, a, x) == Some(Hops(ls, a, b).value + Hops(ls, b, x).value)
    decreases Up(ls, x)
  {
    if x != b {
      var q := LinkParent(ls, x).value;
      UpStep(ls, x, q);
      HopsStep(ls, b, x, q);
      HopsTrans(ls, a, b, q);
      BelowRank(ls, b, x);
      if x == a {
        // a would then be ranked below b, yet b lies on a's ancestor chain
        if Hops(ls, a, b).value > 0 {
          BelowRank(ls, a, b);
          assert false;
        }
      } else {
        HopsStep(ls, a, x, q);
      }
    }
  }

  /** The child of g on the ancestor chain of its descendant x. */
  ghost function Branch(ls: seq<Link>, g: Uuid, x: Uuid): (b: Uuid)
    requires Acyclic(ls) && Below(ls, g, x)
    ensures LinkParent(ls, b) == Some(g)
    decreases Up(ls, x)
  {
    var p := LinkParent(ls, x).value;
    UpStep(ls, x, p);
    if p == g then x else Branch(ls, g, p)
  }

  /**
   * For a child c of g, the descendants of g whose branch is c are exactly c and
   * the descendants of c, one hop further from g than from c.
   */
  lemma {:induction false} BranchChar(ls: seq<Link>, g: Uuid, c: Uuid, x: Uuid)
    requires Acyclic(ls) && LinkParent(ls, c) == Some(g)
    ensures (Below(ls, g, x) && Branch(ls, g, x) == c) <==> Hops(ls, c, x).Some?
    ensures Hops(ls, c, x).Some? ==> Hops(ls, g, x) == Some(Hops(ls, c, x).value + 1)
    decreases Up(ls, x)
  {
    if Hops(ls, c, x).Some? {
      HopsParent(ls, c, g, x);
      if x != c {
        var q := LinkParent(ls, x).value;
        UpStep(ls, x, q);
        if q == g {
          // then c would be g itself or above g, while g is c's parent
          assert Hops(ls, c, q).Some?;
          if Hops(ls, c, g).value == 0 {
            BelowRank(ls, g, c);
          } else {
            BelowRank(ls, c, g);
            BelowRank(ls, g, c);
          }
          assert false;
        }
        BranchChar(ls, g, c, q);
      }
    } else if Below(ls, g, x) {
      var q := LinkParent(ls, x).value;
      UpStep(ls, x, q);
      if q != g {
        BranchChar(ls, g, c, q);
      }
    }
  }
}
