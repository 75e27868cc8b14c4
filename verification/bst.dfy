/**
  The sweep-status structure: an unbalanced binary search tree of polygon
  half-edges whose nodes are updated in place.

  Each operation takes the key function that orders the edges at the current
  sweep position; bst.py recomputes it on every comparison from the query
  vertex (`XIntersectionCoord` below), which is the same function throughout
  one operation. The abstract value of a subtree is a `BstTree.Tree`, kept in
  the ghost field `Abs` of its root node.
*/
module Bst {
  import opened BstTree

  datatype Option<T> = None | Some(value: T)

  class Node<E> {
    var left: Node?<E>
    var right: Node?<E>
    var edge: E

    ghost var Repr: set<object>
    ghost var Abs: Tree<E>

    /** Object invariant: the subtrees are disjoint, acyclic, valid, and
        `Abs` is the tree the links describe. */
    ghost predicate Valid()
      reads this, Repr
      decreases Repr
      ensures Valid() ==> this in Repr && Abs.Branch?
    {
      && this in Repr
      && (left != null ==>
            left in Repr && left.Repr <= Repr && this !in left.Repr && left.Valid())
      && (right != null ==>
            right in Repr && right.Repr <= Repr && this !in right.Repr && right.Valid())
      && (left != null && right != null ==> left.Repr !! right.Repr)
      && Abs == Branch(AbsOf(left), edge, AbsOf(right))
    }

    /** A leaf holding `edge`, with no children. */
    constructor (edge: E)
      ensures Valid() && fresh(Repr)
      ensures left == null && right == null && this.edge == edge
      ensures Abs == Branch(Nil, edge, Nil)
    {
      this.left := null;
      this.right := null;
      this.edge := edge;
      Repr := {this};
      Abs := Branch(Nil, edge, Nil);
    }
  }

  /** The abstract tree rooted at `n`; an absent node is the empty tree. */
  ghost function AbsOf<E>(n: Node?<E>): Tree<E>
    reads n
  {
    if n == null then Nil else n.Abs
  }

  /** The objects making up the tree rooted at `n`. */
  ghost function ReprOf<E>(n: Node?<E>): set<object>
    reads n
  {
    if n == null then {} else n.Repr
  }

  ghost predicate ValidRoot<E>(n: Node?<E>)
    reads n, ReprOf(n)
  {
    n != null ==> n.Valid()
  }

  /** Inserts `edge` below `root` and returns the (possibly new) root: an
      empty tree becomes a fresh leaf; otherwise the edge descends right when
      its key is strictly greater than the node's, else left, and the child
      link on the way is overwritten with the result of the recursive call. */
  method Insert<E>(root: Node?<E>, edge: E, key: E -> real) returns (r: Node<E>)
    requires ValidRoot(root)
    modifies ReprOf(root)
    ensures r.Valid()
    ensures r.Abs == InsertTree(old(AbsOf(root)), edge, key)
    ensures root != null ==> r == root
    ensures fresh(r.Repr - old(ReprOf(root)))
    decreases ReprOf(root)
  {
    if root == null {
      r := new Node(edge);
      return;
    }
    if key(edge) > key(root.edge) {
      var n := Insert(root.right, edge, key);
      root.right := n;
      root.Repr := root.Repr + n.Repr;
      root.Abs := Branch(AbsOf(root.left), root.edge, n.Abs);
    } else {
      var n := Insert(root.left, edge, key);
      root.left := n;
      root.Repr := root.Repr + n.Repr;
      root.Abs := Branch(n.Abs, root.edge, AbsOf(root.right));
    }
    r := root;
  }

  /** Follows `left` links from `node` until there is none and returns that
      node: the one holding the in-order first edge of the subtree. */
  method MinValueNode<E>(node: Node<E>) returns (current: Node<E>)
    requires node.Valid()
    ensures current in node.Repr && current.Valid() && current.left == null
    ensures current.edge == MinEdge(node.Abs)
  {
    current := node;
    while current.left != null
      invariant current in node.Repr && current.Repr <= node.Repr
      invariant current.Valid()
      invariant MinEdge(current.Abs) == MinEdge(node.Abs)
      decreases current.Repr
    {
      current := current.left;
    }
  }

  /** Deletes the node whose edge has the key of `edge` below `root` and
      returns the (possibly new) root. A node with at most one child is
      replaced by that child; a node with two children takes over the edge of
      its in-order successor, which is then deleted from the right subtree. */
  method Delete<E>(root: Node?<E>, edge: E, key: E -> real) returns (r: Node?<E>)
    requires ValidRoot(root)
    modifies ReprOf(root)
    ensures ValidRoot(r)
    ensures AbsOf(r) == DeleteTree(old(AbsOf(root)), edge, key)
    ensures ReprOf(r) <= old(ReprOf(root))
    decreases ReprOf(root)
  {
    if root == null {
      return root;
    }
    if key(edge) > key(root.edge) {
      var n := Delete(root.right, edge, key);
      root.right := n;
    } else if key(edge) < key(root.edge) {
      var n := Delete(root.left, edge, key);
      root.left := n;
    } else {
      if root.left == null {
        return root.right;
      } else if root.right == null {
        return root.left;
      }
      var tmp := MinValueNode(root.right);
      root.edge := tmp.edge;
      var n := Delete(root.right, tmp.edge, key);
      root.right := n;
    }
    root.Abs := Branch(AbsOf(root.left), root.edge, AbsOf(root.right));
    r := root;
  }

  /** The stored edge immediately to the left of a vertex at abscissa `x`:
      the one with the greatest key not above `x`, or None when every stored
      key exceeds `x` (in particular for an empty tree). A node whose key is
      exactly `x` is returned at once. */
  function FindEdgeDirectlyToTheLeft<E>(root: Node?<E>, x: real, key: E -> real): (r: Option<E>)
    requires ValidRoot(root) && Ordered(AbsOf(root), key)
    reads ReprOf(root)
    ensures r.None? <==> forall y :: y in InOrder(AbsOf(root)) ==> key(y) > x
    ensures r.Some? ==> r.value in InOrder(AbsOf(root)) && key(r.value) <= x
    ensures r.Some? ==> forall y :: y in InOrder(AbsOf(root)) && key(y) <= x ==> key(y) <= key(r.value)
    decreases ReprOf(root)
  {
    if root == null then None
    else if x == key(root.edge) then Some(root.edge)
    else if x > key(root.edge) then
      var tmp := FindEdgeDirectlyToTheLeft(root.right, x, key);
      if tmp.None? then Some(root.edge) else tmp
    else FindEdgeDirectlyToTheLeft(root.left, x, key)
  }

  /** When the vertex lies on a stored edge (its key is exactly `x`) and keys
      are distinct, the query returns that very edge. This follows from the
      contract of `FindEdgeDirectlyToTheLeft`: the result's key is at most `x`
      and at least `key(y)`, so it is `key(y)`, which only `y` has. */
  lemma FindEdgeOnVertex<E>(root: Node?<E>, x: real, key: E -> real, y: E)
    requires ValidRoot(root) && Ordered(AbsOf(root), key) && DistinctKeys(AbsOf(root), key)
    requires y in InOrder(AbsOf(root)) && key(y) == x
    ensures FindEdgeDirectlyToTheLeft(root, x, key) == Some(y)
  {
  }

  // ---------------------------------------------------------------------
  // The key: where an edge crosses the horizontal line through a vertex
  // ---------------------------------------------------------------------

  datatype Point = Point(x: real, y: real)

  /** A half-edge's geometry: its origin and the origin of its twin. */
  datatype Segment = Segment(orig: Point, dest: Point)

  /** The x-coordinate where the line through `edge` meets the horizontal
      line through `vertex`. A vertical edge gives its own x; a horizontal
      edge gives its right end; otherwise the crossing is interpolated. */
  function XIntersectionCoord(edge: Segment, vertex: Point): (r: real)
    ensures edge.orig.x == edge.dest.x ==> r == edge.orig.x
    ensures edge.orig.x != edge.dest.x && edge.orig.y == edge.dest.y ==>
              r >= edge.orig.x && r >= edge.dest.x && (r == edge.orig.x || r == edge.dest.x)
    ensures edge.orig.y != edge.dest.y ==>
              (r - edge.orig.x) * (edge.dest.y - edge.orig.y)
              == (edge.dest.x - edge.orig.x) * (vertex.y - edge.orig.y)
  {
    var orig, dest := edge.orig, edge.dest;
    if orig.x == dest.x then orig.x
    else if orig.y == dest.y then (if orig.x >= dest.x then orig.x else dest.x)
    else (dest.x - orig.x) * (vertex.y - orig.y) / (dest.y - orig.y) + orig.x
  }

  /** On a non-horizontal edge the crossing at the height of an endpoint is
      that endpoint's x. */
  lemma CrossingAtEndpoints(edge: Segment, vertex: Point)
    requires edge.orig.y != edge.dest.y
    ensures vertex.y == edge.orig.y ==> XIntersectionCoord(edge, vertex) == edge.orig.x
    ensures vertex.y == edge.dest.y ==> XIntersectionCoord(edge, vertex) == edge.dest.x
  {
    var dy := edge.dest.y - edge.orig.y;
    if vertex.y == edge.dest.y && edge.orig.x != edge.dest.x {
      assert (edge.dest.x - edge.orig.x) * dy / dy == edge.dest.x - edge.orig.x;
    }
  }
}
