/**
 * Rooms of the mansion map: the abstract value of a (sub)tree, the heap node
 * `Room` whose child pointers are assigned in place, and the name copy that the
 * node constructor performs into its fixed 50-byte buffer.
 */
module Rooms {

  /** Capacity of the name buffer is 50; one slot is kept for the terminator. */
  const MaxNameLength: nat := 49

  /** The abstract value of a possibly absent subtree (`Nil` is a null pointer). */
  datatype Tree = Nil | Node(name: string, left: Tree, right: Tree)

  /** Which child pointer a move follows: "esquerda" (left) or "direita" (right). */
  datatype Dir = Left | Right

  /** A room without any exit: the only place where exploration ends by itself. */
  predicate IsLeaf(t: Tree)
    requires t.Node?
  {
    t.left.Nil? && t.right.Nil?
  }

  function Child(t: Tree, d: Dir): Tree
    requires t.Node?
  {
    match d
    case Left => t.left
    case Right => t.right
  }

  /** Length of the longest root-to-leaf path; `Nil` has height 0. */
  function Height(t: Tree): nat
  {
    match t
    case Nil => 0
    case Node(_, l, r) => 1 + (if Height(l) < Height(r) then Height(r) else Height(l))
  }

  /**
   * How many characters `strncpy` copies from position `i` on before it has
   * copied `n` in all, reached the end of `s`, or met the NUL that ends `s`.
   */
  function CopyLength(s: string, n: nat, i: nat): (k: nat)
    requires i <= n && i <= |s|
    ensures i <= k <= n && k <= |s|
    ensures forall j :: i <= j < k ==> s[j] != '\0'
    ensures k < |s| ==> k == n || s[k] == '\0'
    decreases |s| - i
  {
    if i == n || i == |s| || s[i] == '\0' then i else CopyLength(s, n, i + 1)
  }

  /**
   * The C string left in a buffer of `n + 1` slots after copying at most `n`
   * characters of `s` and terminating it: a prefix of `s` that stops at the
   * first NUL.
   */
  function CName(s: string, n: nat): (r: string)
    ensures |r| <= n && r <= s && '\0' !in r
    ensures |r| < |s| ==> |r| == n || s[|r|] == '\0'
    ensures '\0' !in s ==> r == s[..if |s| < n then |s| else n]
  {
    s[..CopyLength(s, n, 0)]
  }

  /**
   * A room of the mansion. The program builds the map by assigning `left` and
   * `right` of already created rooms; `Repr` is the set of rooms owned by this
   * one (itself included) and `Model` the tree value they spell.
   */
  class Room {
    var name: string
    var left: Room?
    var right: Room?
    ghost var Repr: set<Room>
    ghost var Model: Tree

    /** Strict binary tree: children own disjoint footprints that exclude this room. */
    ghost predicate Valid()
      reads this, Repr
      decreases Repr
    {
      && this in Repr
      && (left != null ==>
            left in Repr && left.Repr <= Repr && this !in left.Repr && left.Valid())
      && (right != null ==>
            right in Repr && right.Repr <= Repr && this !in right.Repr && right.Valid())
      && (left != null && right != null ==> left.Repr !! right.Repr)
      && Repr == {this} + (if left == null then {} else left.Repr)
                        + (if right == null then {} else right.Repr)
      && Model == Node(name, if left == null then Nil else left.Model,
                             if right == null then Nil else right.Model)
    }

    /** A new room with its name cut to the buffer and no exits. */
    constructor (name: string)
      ensures Valid() && fresh(Repr) && Repr == {this}
      ensures this.name == CName(name, MaxNameLength)
      ensures left == null && right == null
      ensures Model == Node(CName(name, MaxNameLength), Nil, Nil)
    {
      this.name := CName(name, MaxNameLength);
      left := null;
      right := null;
      Repr := {this};
      Model := Node(CName(name, MaxNameLength), Nil, Nil);
    }

    /**
     * Gives a room without exits the exits `l` and `r` by assigning its child
     * pointers; `l` and `r` must be valid, disjoint and not own this room.
     */
    method Link(l: Room?, r: Room?)
      requires Valid() && left == null && right == null
      requires l != null ==> l.Valid() && this !in l.Repr
      requires r != null ==> r.Valid() && this !in r.Repr
      requires l != null && r != null ==> l.Repr !! r.Repr
      modifies this
      ensures Valid() && name == old(name) && left == l && right == r
      ensures Repr == {this} + Owned(l) + Owned(r)
      ensures Model == Node(name, ModelOf(l), ModelOf(r))
    {
      left, right := l, r;
      Repr := {this} + Owned(l) + Owned(r);
      Model := Node(name, ModelOf(l), ModelOf(r));
    }
  }

  /** The tree value of a possibly null room pointer. */
  ghost function ModelOf(r: Room?): Tree
    reads r
  {
    if r == null then Nil else r.Model
  }

  /** The rooms owned through a possibly null room pointer. */
  ghost function Owned(r: Room?): set<Room>
    reads r
  {
    if r == null then {} else r.Repr
  }

  /** Every room owned by a valid room owns only rooms inside it. */
  lemma {:induction false} ReprClosed(r: Room)
    requires r.Valid()
    ensures forall x :: x in r.Repr ==> x.Repr <= r.Repr
    decreases r.Repr
  {
    if r.left != null { ReprClosed(r.left); }
    if r.right != null { ReprClosed(r.right); }
  }
}
