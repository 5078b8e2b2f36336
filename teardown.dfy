/**
 * Releasing the map: left subtree, then right subtree, then the room itself.
 * The release order is modelled as the sequence of rooms in the order in
 * which they would be freed.
 */
module Teardown {
  import opened Rooms

  /** Names of a tree's rooms in post-order. */
  function PostOrder(t: Tree): (names: seq<string>)
    ensures |names| == Size(t)
  {
    match t
    case Nil => []
    case Node(name, l, r) => PostOrder(l) + PostOrder(r) + [name]
  }

  function Size(t: Tree): nat
  {
    match t
    case Nil => 0
    case Node(_, l, r) => Size(l) + Size(r) + 1
  }

  /** The rooms in the order they are freed; a null pointer frees nothing. */
  function ReleaseOrder(r: Room?): (order: seq<Room>)
    requires r != null ==> r.Valid()
    reads if r == null then {} else r.Repr
    decreases if r == null then {} else r.Repr
    ensures r != null ==> forall i :: 0 <= i < |order| ==> order[i] in r.Repr
  {
    if r == null then []
    else ReleaseOrder(r.left) + ReleaseOrder(r.right) + [r]
  }

  /** Every room owned by `r` is freed, and none twice. */
  lemma {:induction false} ReleasedOnce(r: Room?)
    requires r != null ==> r.Valid()
    ensures r == null ==> ReleaseOrder(r) == []
    ensures forall x :: x in Owned(r) ==> x in ReleaseOrder(r)
    ensures forall i, j :: 0 <= i < j < |ReleaseOrder(r)| ==> ReleaseOrder(r)[i] != ReleaseOrder(r)[j]
    decreases Owned(r)
  {
    if r != null {
      ReleasedOnce(r.left);
      ReleasedOnce(r.right);
      var l, rt := ReleaseOrder(r.left), ReleaseOrder(r.right);
      var order := ReleaseOrder(r);
      assert order == l + rt + [r];
      assert forall k :: 0 <= k < |l| ==> l[k] in Owned(r.left);
      assert forall k :: 0 <= k < |rt| ==> rt[k] in Owned(r.right);
      forall i, j | 0 <= i < j < |order| ensures order[i] != order[j] {
        if j < |l| {
          assert order[i] == l[i] && order[j] == l[j];
        } else if i < |l| {
          assert order[i] == l[i];
          if j < |l| + |rt| { assert order[j] == rt[j - |l|]; }
        } else if j < |l| + |rt| {
          assert order[i] == rt[i - |l|] && order[j] == rt[j - |l|];
        } else {
          assert order[i] == rt[i - |l|];
        }
      }
    }
  }

  /** No room is freed after a room that owns it: children go first. */
  lemma {:induction false} ReleasedChildrenFirst(r: Room?)
    requires r != null ==> r.Valid()
    ensures forall i, j :: 0 <= i < j < |ReleaseOrder(r)| ==> ReleaseOrder(r)[j] !in ReleaseOrder(r)[i].Repr
    decreases Owned(r)
  {
    if r != null {
      ReleasedChildrenFirst(r.left);
      ReleasedChildrenFirst(r.right);
      var l, rt := ReleaseOrder(r.left), ReleaseOrder(r.right);
      var order := ReleaseOrder(r);
      assert order == l + rt + [r];
      if r.left != null { ReprClosed(r.left); }
      if r.right != null { ReprClosed(r.right); }
      assert forall k :: 0 <= k < |l| ==> l[k] in Owned(r.left) && l[k].Repr <= Owned(r.left);
      assert forall k :: 0 <= k < |rt| ==> rt[k] in Owned(r.right) && rt[k].Repr <= Owned(r.right);
      forall i, j | 0 <= i < j < |order| ensures order[j] !in order[i].Repr {
        if j < |l| {
          assert order[i] == l[i] && order[j] == l[j];
        } else if i < |l| {
          assert order[i] == l[i];
          if j < |l| + |rt| { assert order[j] == rt[j - |l|]; }
        } else if j < |l| + |rt| {
          assert order[i] == rt[i - |l|] && order[j] == rt[j - |l|];
        } else {
          assert order[i] == rt[i - |l|];
        }
      }
    }
  }

  /** The rooms are freed in the post-order of the map's tree value. */
  lemma {:induction false} ReleasedInPostOrder(r: Room?)
    requires r != null ==> r.Valid()
    ensures |ReleaseOrder(r)| == |PostOrder(ModelOf(r))|
    ensures forall i :: 0 <= i < |ReleaseOrder(r)| ==> ReleaseOrder(r)[i].name == PostOrder(ModelOf(r))[i]
    decreases Owned(r)
  {
    if r != null {
      ReleasedInPostOrder(r.left);
      ReleasedInPostOrder(r.right);
      assert ReleaseOrder(r) == ReleaseOrder(r.left) + ReleaseOrder(r.right) + [r];
      assert PostOrder(ModelOf(r))
          == PostOrder(ModelOf(r.left)) + PostOrder(ModelOf(r.right)) + [r.name];
    }
  }
}
