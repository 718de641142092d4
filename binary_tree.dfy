/**
 * The binary tree of check2.cpp and its `Height` function.
 *
 * A `Node*` that may be null becomes the datatype `Tree`: `Nil` is the null
 * pointer, `Node` a heap node with its value and two children.
 */
module BinaryTree {

  datatype Tree = Nil | Node(value: int, left: Tree, right: Tree)

  /** Number of nodes in the tree. */
  function Size(t: Tree): nat
  {
    match t
    case Nil => 0
    case Node(_, l, r) => 1 + Size(l) + Size(r)
  }

  /** `std::max` on two ints. */
  function Max(a: int, b: int): int
  {
    if a < b then b else a
  }

  /**
   * Height of a tree: -1 for the empty tree, otherwise one more than the
   * taller subtree. The height never exceeds the number of nodes minus one.
   */
  function Height(t: Tree): (h: int)
    ensures -1 <= h <= Size(t) - 1
    ensures h == -1 <==> t == Nil
  {
    match t
    case Nil => -1
    case Node(_, l, r) => Max(Height(l), Height(r)) + 1
  }

  /** A node is one level above each of its subtrees, and exactly one above the taller one. */
  lemma NodeHeight(v: int, l: Tree, r: Tree)
    ensures Height(Node(v, l, r)) > Height(l) && Height(Node(v, l, r)) > Height(r)
    ensures Height(Node(v, l, r)) == Height(l) + 1 || Height(Node(v, l, r)) == Height(r) + 1
  {
  }

  /** A node without children has height 0. */
  lemma LeafHeight(v: int)
    ensures Height(Node(v, Nil, Nil)) == 0
  {
  }

  /** The tree with the two children of every node swapped. */
  function Mirror(t: Tree): Tree
  {
    match t
    case Nil => Nil
    case Node(v, l, r) => Node(v, Mirror(r), Mirror(l))
  }

  /** Swapping the children of a single node does not change its height. */
  lemma SwapChildrenHeight(v: int, l: Tree, r: Tree)
    ensures Height(Node(v, r, l)) == Height(Node(v, l, r))
  {
  }

  /** Swapping children at every level does not change the height either. */
  lemma {:induction false} MirrorHeight(t: Tree)
    ensures Height(Mirror(t)) == Height(t)
  {
    match t
    case Nil =>
    case Node(_, l, r) =>
      MirrorHeight(l);
      MirrorHeight(r);
  }

  /** Two trees with the same nodes in the same places, whatever values they hold. */
  predicate SameShape(t: Tree, u: Tree)
  {
    match (t, u)
    case (Nil, Nil) => true
    case (Node(_, tl, tr), Node(_, ul, ur)) => SameShape(tl, ul) && SameShape(tr, ur)
    case _ => false
  }

  /** Node values never affect the height. */
  lemma {:induction false} HeightIgnoresValues(t: Tree, u: Tree)
    requires SameShape(t, u)
    ensures Height(t) == Height(u)
  {
    match (t, u)
    case (Nil, Nil) =>
    case (Node(_, tl, tr), Node(_, ul, ur)) =>
      HeightIgnoresValues(tl, ul);
      HeightIgnoresValues(tr, ur);
  }

  /**
   * `p` leads from the root to a node of `t`: each step goes to the right
   * child when it is `true` and to the left child when it is `false`.
   */
  predicate IsPath(t: Tree, p: seq<bool>)
    decreases |p|
  {
    t.Node? && (p == [] || IsPath(if p[0] then t.right else t.left, p[1..]))
  }

  /** No root-to-node path has more edges than the height. */
  lemma {:induction false} PathNoLongerThanHeight(t: Tree, p: seq<bool>)
    requires IsPath(t, p)
    ensures |p| <= Height(t)
    decreases |p|
  {
    if p != [] {
      PathNoLongerThanHeight(if p[0] then t.right else t.left, p[1..]);
    }
  }

  /** A non-empty tree has a root-to-node path with exactly `Height` edges. */
  lemma {:induction false} DeepestPath(t: Tree)
    requires t.Node?
    ensures exists p :: IsPath(t, p) && |p| == Height(t)
  {
    var l, r := t.left, t.right;
    if l.Node? && Height(l) >= Height(r) {
      DeepestPath(l);
      var p :| IsPath(l, p) && |p| == Height(l);
      assert ([false] + p)[1..] == p;
      assert IsPath(t, [false] + p);
    } else if r.Node? {
      DeepestPath(r);
      var p :| IsPath(r, p) && |p| == Height(r);
      assert ([true] + p)[1..] == p;
      assert IsPath(t, [true] + p);
    } else {
      assert IsPath(t, []);
    }
  }
}
