# Sweep-status tree and half-edge records of a polygon triangulator

This project models two building blocks of a computational-geometry package
that decomposes a simple polygon into monotone pieces with a plane sweep:

- `bst.py`, the sweep-line status. It is an unbalanced binary search tree of
  polygon half-edges. The half-edges are ordered by the x-coordinate at which
  each one crosses the horizontal line through the current event vertex. The
  tree supports insertion, deletion (with the in-order successor copied into
  a node that has two children), the leftmost node of a subtree, and the
  query for the edge directly to the left of a vertex.
- `src/compgeo/dcel.py`, the doubly connected edge list records. These are
  vertices, half-edges and faces. A face can list the half-edges of its
  boundary by following `next` links.

Files and modules:

- `tree.dfy`, module `BstTree`. The value-level tree (`Tree`), its in-order
  sequence, the search-tree order (left keys `<=` node key `<` right keys,
  which matches the tie rule of `insert`) and distinct keys. It also defines
  the specification functions `InsertTree`, `MinEdge` and `DeleteTree`, and
  the lemmas about them.
- `bst.dfy`, module `Bst`. Tree nodes are heap objects (`Node`) updated in
  place, like the Python ones. Each node carries a ghost footprint `Repr` and
  a ghost abstract value `Abs`. The methods `Insert`, `Delete` and
  `MinValueNode`, and the function `FindEdgeDirectlyToTheLeft`, are proved
  against the specification functions. This file also holds the key
  computation `XIntersectionCoord`.
- `dcel.dfy`, module `Dcel`. The classes `Vertex`, `Face` and `Edge`, and the
  boundary walk `Face.GetSurroundingEdges`.

The ordering key is a parameter `key: E -> real`. In the source every
comparison calls `x_intersection_coord(edge, vertex)` for the fixed `vertex`
of that call, which is one function of the edge for the whole operation.

## Model

| member | source | states |
|---|---|---|
| `Bst.Node.constructor` | bst.py:3-6 | A new node holds the edge, has no children and is a one-node tree. |
| `Bst.Insert` | bst.py:11-33 | The tree under the returned root is `InsertTree` of the old tree. An empty tree becomes a fresh leaf, and a non-empty root is returned unchanged as the root. Only fresh nodes are added. |
| `BstTree.InsertAddsEntry` | bst.py:24-31 | Insertion adds exactly one occurrence of the edge: the in-order multiset gains `{e}` and the size grows by one. |
| `BstTree.InsertPreservesOrder` | bst.py:28-31 | Insertion keeps the search-tree order (strictly greater keys go right, ties go left). |
| `BstTree.InsertSplicesInOrder` | bst.py:28-31 | In an ordered tree, the new in-order sequence is the entries with smaller keys, then `e`, then the entries with keys at least `key(e)`. So `e` lands after every smaller key and before every key at least as great. |
| `BstTree.InsertKeepsDistinct` | bst.py:12-31 | In an ordered tree with distinct keys, inserting an edge whose key is not stored keeps the keys distinct. So a tree built by insertions satisfies the assumption that the deletion lemmas need. |
| `Bst.MinValueNode` | bst.py:36-41 | The loop stops at a node of the subtree that has no left child, and that node holds the subtree's in-order first edge. |
| `BstTree.MinEdgeIsMinimum` | bst.py:36-41 | In an ordered tree the leftmost edge is stored in the tree and has the least key. |
| `Bst.Delete` | bst.py:44-81 | The tree under the returned root is `DeleteTree` of the old tree, and the result uses only nodes of the old tree. This covers both the one-child case and the two-children successor copy. |
| `BstTree.DeleteRemovesEntry` | bst.py:54-81 | With order and distinct keys, deleting an edge whose key matches entry `i` removes exactly entry `i` from the in-order sequence, including when the successor is copied up. |
| `BstTree.DeleteRemovesOne` | bst.py:54-81 | With order and distinct keys, deleting a stored edge removes exactly that edge from the multiset, lowers the size by one and keeps the order. |
| `BstTree.DeletePreservesOrder` | bst.py:57-81 | With order and distinct keys, deletion keeps the search-tree order, including after the in-order successor replaces a node with two children. |
| `BstTree.EqualKeysBreakDelete` | bst.py:72-79 | Without distinct keys the successor copy goes wrong. In the ordered tree `1(0, 3(2, -))`, where entries 2 and 3 share a key, deleting entry 1 gives the in-order sequence `0, 2, 2`, which is no longer ordered. |
| `BstTree.DeleteAbsentUnchanged` | bst.py:54-60 | Deleting an edge whose key equals no stored key leaves the tree unchanged. |
| `BstTree.DeleteAfterInsert` | bst.py:24-81 | Inserting an edge with a fresh key and then deleting it gives back the original tree. |
| `Bst.FindEdgeDirectlyToTheLeft` | bst.py:84-105 | On an ordered tree the result is None iff every stored key is greater than `x`. Otherwise it is a stored edge with key `<= x`, and no stored key `<= x` is greater. |
| `Bst.FindEdgeOnVertex` | bst.py:94-97 | With order and distinct keys, when a stored edge's key equals `x` exactly, that edge is the one returned. |
| `Bst.XIntersectionCoord` | bst.py:118-135 | A vertical edge gives its own x. A horizontal edge gives the larger of its endpoint x's. Otherwise the result lies on the line through the edge, at the height of the vertex (the divisor is nonzero). |
| `Bst.CrossingAtEndpoints` | bst.py:129-135 | For a non-horizontal edge, the crossing at the origin's height is the origin's x, and the crossing at the destination's height is the destination's x. |
| `Dcel.Vertex.constructor` | src/compgeo/dcel.py:12-14 | A vertex built from a coordinate pair has `x` and `y` equal to its components. |
| `Dcel.Face.constructor` | src/compgeo/dcel.py:19-20 | A new face has no boundary edge. |
| `Dcel.Edge.constructor` | src/compgeo/dcel.py:47-52 | A new half-edge stores its origin and interior face (both absent when not given), and has no twin, next or previous half-edge. |
| `Dcel.Face.GetSurroundingEdges` | src/compgeo/dcel.py:28-42 | When the boundary edge lies on a finite `next` cycle, the walk terminates and returns exactly that cycle in order. The first element is the boundary edge, each element's `next` is the following element, the last one's `next` is the boundary edge, and there are no repeats. A self-loop gives the one-element list. |
| `Dcel.NextCycleUnique` | src/compgeo/dcel.py:35-40 | A `next` cycle is determined by its starting half-edge, so the walk's result does not depend on how the cycle is described. |

## Left out

- Floating point: coordinates and keys are exact reals. Rounding in the
  interpolation of `x_intersection_coord` and the exact float equality tests
  are not modelled.
- The key function: `bst.py` reads `vertex.coords` and
  `edge.twin.origin.coords`, but the `Vertex` classes of the repository only
  have `x` and `y`. `XIntersectionCoord` therefore works on value points and
  segments, not on heap `Vertex`/`Edge` objects. The tree operations take the
  resulting key as a function, and `FindEdgeDirectlyToTheLeft` takes the
  vertex's x-coordinate as `x`.
- Bst.Delete: correctness in terms of removed entries and order is stated
  under distinct keys, which `bst.py:13-15` names as a property of polygon
  half-edges. With equal keys the source can do worse than delete a
  different edge with the same key. When a node with two children is
  deleted, the successor's edge is copied up, and the follow-up delete at
  `bst.py:79` searches by the successor's key. It can stop at a higher node
  with the same key instead of the successor. Take `a`, `x`, `m`, `z` with
  keys 0, 1, 2, 2 in the ordered tree `x(a, z(m, -))`. Deleting `x` gives
  the in-order sequence `a, m, m`: `z` is lost, `m` is stored twice, and the
  order breaks (`BstTree.EqualKeysBreakDelete`). The model computes exactly what the source does
  (`DeleteTree`) and promises nothing more for equal keys.
- `print_inorder` and the empty `BinarySearchTree` class of `bst.py`: output
  only, or no behaviour.
- `Face.__str__`, `Face.__repr__`, `Edge.__str__` and `Edge.__repr__`:
  string formatting only.
- Dcel.Face.GetSurroundingEdges: the precondition excludes three failure
  cases of the source. An absent boundary edge raises an attribute error.
  A `next` chain that reaches an absent link (for example
  `boundary_edge.next` is None) appends None and then raises an attribute
  error when it follows that link. A chain that runs into a cycle not
  containing the start loops forever. The finite cycle is passed as a
  ghost argument.
- The rest of the package (the monotone decomposition driver, the
  triangulation, the older top-level DCEL, the command-line entry point) is
  not part of this model.
- No rebalancing, as in the source. Recursion depth is not bounded.
