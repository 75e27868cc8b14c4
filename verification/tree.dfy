/**
  Value-level specification of the sweep-status binary search tree.

  A `Tree` is the shape the linked `Node` objects of module `Bst` describe.
  Entries are ordered by a key function fixed for the duration of one
  operation: in the sweep it is the x-coordinate at which an edge crosses
  the horizontal line through the current event vertex. Equal keys go to the
  left, so the order kept is  left <= node < right.
*/
module BstTree {

  datatype Tree<E> = Nil | Branch(left: Tree<E>, edge: E, right: Tree<E>)

  /** The entries of a tree in symmetric (in-order) order. */
  function InOrder<E>(t: Tree<E>): seq<E>
  {
    match t
    case Nil => []
    case Branch(l, x, r) => InOrder(l) + [x] + InOrder(r)
  }

  /** Search-tree order: every key in the left subtree is at most the node's,
      every key in the right subtree is strictly greater. */
  ghost predicate Ordered<E>(t: Tree<E>, key: E -> real)
  {
    match t
    case Nil => true
    case Branch(l, x, r) =>
      && Ordered(l, key)
      && Ordered(r, key)
      && (forall y :: y in InOrder(l) ==> key(y) <= key(x))
      && (forall y :: y in InOrder(r) ==> key(y) > key(x))
  }

  /** No two stored entries share a key (two polygon edges crossing the
      sweep line at the same point would intersect). */
  ghost predicate DistinctKeys<E>(t: Tree<E>, key: E -> real)
  {
    var s := InOrder(t);
    forall i, j :: 0 <= i < |s| && 0 <= j < |s| && i != j ==> key(s[i]) != key(s[j])
  }

  /** Insertion: an empty subtree becomes a leaf holding `e`; otherwise `e`
      goes right when its key is strictly greater than the node's, else left. */
  function InsertTree<E>(t: Tree<E>, e: E, key: E -> real): (r: Tree<E>)
    ensures r.Branch?
  {
    match t
    case Nil => Branch(Nil, e, Nil)
    case Branch(l, x, rt) =>
      if key(e) > key(x) then Branch(l, x, InsertTree(rt, e, key))
      else Branch(InsertTree(l, e, key), x, rt)
  }

  /** The entry of the leftmost node, reached by following `left` links. */
  function MinEdge<E>(t: Tree<E>): (m: E)
    requires t.Branch?
    ensures |InOrder(t)| > 0 && m == InOrder(t)[0]
  {
    if t.left.Nil? then t.edge else MinEdge(t.left)
  }

  /** Deletion by key: the search goes right on a greater key, left on a
      smaller one; on an equal key a node with at most one child is replaced
      by that child, and a node with two children takes the in-order
      successor's entry, which is then deleted from the right subtree. */
  function DeleteTree<E>(t: Tree<E>, e: E, key: E -> real): (r: Tree<E>)
    ensures forall y :: y in InOrder(r) ==> y in InOrder(t)
  {
    match t
    case Nil => Nil
    case Branch(l, x, rt) =>
      if key(e) > key(x) then Branch(l, x, DeleteTree(rt, e, key))
      else if key(e) < key(x) then Branch(DeleteTree(l, e, key), x, rt)
      else if l.Nil? then rt
      else if rt.Nil? then l
      else
        var m := MinEdge(rt);
        Branch(l, m, DeleteTree(rt, m, key))
  }

  /** Entries of `s` whose key is less than `k`, in their order. */
  function KeysBelow<E>(s: seq<E>, k: real, key: E -> real): seq<E>
  {
    if s == [] then []
    else (if key(s[0]) < k then [s[0]] else []) + KeysBelow(s[1..], k, key)
  }

  /** Entries of `s` whose key is at least `k`, in their order. */
  function KeysAtLeast<E>(s: seq<E>, k: real, key: E -> real): seq<E>
  {
    if s == [] then []
    else (if key(s[0]) >= k then [s[0]] else []) + KeysAtLeast(s[1..], k, key)
  }

  // ---------------------------------------------------------------------
  // Helpers about sequences and branches
  // ---------------------------------------------------------------------

  lemma FiltersOfConcat<E>(a: seq<E>, b: seq<E>, k: real, key: E -> real)
    ensures KeysBelow(a + b, k, key) == KeysBelow(a, k, key) + KeysBelow(b, k, key)
    ensures KeysAtLeast(a + b, k, key) == KeysAtLeast(a, k, key) + KeysAtLeast(b, k, key)
  {
    BelowOfConcat(a, b, k, key);
    AtLeastOfConcat(a, b, k, key);
  }

  lemma {:induction false} BelowOfConcat<E>(a: seq<E>, b: seq<E>, k: real, key: E -> real)
    ensures KeysBelow(a + b, k, key) == KeysBelow(a, k, key) + KeysBelow(b, k, key)
  {
    if a == [] {
      assert a + b == b;
    } else {
      assert (a + b)[0] == a[0];
      assert (a + b)[1..] == a[1..] + b;
      BelowOfConcat(a[1..], b, k, key);
      var h := if key(a[0]) < k then [a[0]] else [];
      calc {
        KeysBelow(a + b, k, key);
        h + KeysBelow(a[1..] + b, k, key);
        h + (KeysBelow(a[1..], k, key) + KeysBelow(b, k, key));
        { Assoc(h, KeysBelow(a[1..], k, key), KeysBelow(b, k, key)); }
        KeysBelow(a, k, key) + KeysBelow(b, k, key);
      }
    }
  }

  lemma {:induction false} AtLeastOfConcat<E>(a: seq<E>, b: seq<E>, k: real, key: E -> real)
    ensures KeysAtLeast(a + b, k, key) == KeysAtLeast(a, k, key) + KeysAtLeast(b, k, key)
  {
    if a == [] {
      assert a + b == b;
    } else {
      assert (a + b)[0] == a[0];
      assert (a + b)[1..] == a[1..] + b;
      AtLeastOfConcat(a[1..], b, k, key);
      var g := if key(a[0]) >= k then [a[0]] else [];
      calc {
        KeysAtLeast(a + b, k, key);
        g + KeysAtLeast(a[1..] + b, k, key);
        g + (KeysAtLeast(a[1..], k, key) + KeysAtLeast(b, k, key));
        { Assoc(g, KeysAtLeast(a[1..], k, key), KeysAtLeast(b, k, key)); }
        KeysAtLeast(a, k, key) + KeysAtLeast(b, k, key);
      }
    }
  }

  lemma Assoc<E>(a: seq<E>, b: seq<E>, c: seq<E>)
    ensures a + (b + c) == (a + b) + c
  {
  }

  lemma FiltersOfSingleton<E>(x: E, k: real, key: E -> real)
    ensures KeysBelow([x], k, key) == (if key(x) < k then [x] else [])
    ensures KeysAtLeast([x], k, key) == (if key(x) >= k then [x] else [])
  {
    assert [x][1..] == [];
  }

  lemma {:induction false} FiltersAllBelow<E>(s: seq<E>, k: real, key: E -> real)
    requires forall j :: 0 <= j < |s| ==> key(s[j]) < k
    ensures KeysBelow(s, k, key) == s && KeysAtLeast(s, k, key) == []
  {
    if s != [] {
      FiltersAllBelow(s[1..], k, key);
    }
  }

  lemma {:induction false} FiltersAllAtLeast<E>(s: seq<E>, k: real, key: E -> real)
    requires forall j :: 0 <= j < |s| ==> key(s[j]) >= k
    ensures KeysBelow(s, k, key) == [] && KeysAtLeast(s, k, key) == s
  {
    if s != [] {
      FiltersAllAtLeast(s[1..], k, key);
    }
  }

  /** Insertion adds exactly one occurrence of `e` to the contents and one
      to the size. */
  lemma {:induction false} InsertAddsEntry<E>(t: Tree<E>, e: E, key: E -> real)
    ensures multiset(InOrder(InsertTree(t, e, key))) == multiset(InOrder(t)) + multiset{e}
    ensures |InOrder(InsertTree(t, e, key))| == |InOrder(t)| + 1
  {
    match t
    case Nil =>
    case Branch(l, x, r) =>
      var t' := InsertTree(t, e, key);
      var ml, mx, mr, me := multiset(InOrder(l)), multiset{x}, multiset(InOrder(r)), multiset{e};
      assert multiset(InOrder(t)) == ml + mx + mr by {
        MultisetOfBranch(InOrder(l), x, InOrder(r));
      }
      if key(e) > key(x) {
        var r' := InsertTree(r, e, key);
        InsertAddsEntry(r, e, key);
        assert multiset(InOrder(t')) == ml + mx + mr + me by {
          assert t' == Branch(l, x, r');
          MultisetOfBranch(InOrder(l), x, InOrder(r'));
          MultisetAssoc(ml + mx, mr, me);
        }
      } else {
        var l' := InsertTree(l, e, key);
        InsertAddsEntry(l, e, key);
        assert multiset(InOrder(t')) == ml + mx + mr + me by {
          assert t' == Branch(l', x, r);
          MultisetOfBranch(InOrder(l'), x, InOrder(r));
          MultisetSwap(ml, me, mx);
          MultisetSwap(ml + mx, me, mr);
        }
      }
  }

  lemma MultisetOfBranch<E>(a: seq<E>, x: E, b: seq<E>)
    ensures multiset(a + [x] + b) == multiset(a) + multiset{x} + multiset(b)
    ensures |a + [x] + b| == |a| + 1 + |b|
  {
  }

  lemma MultisetAssoc<E>(a: multiset<E>, b: multiset<E>, c: multiset<E>)
    ensures a + (b + c) == a + b + c
  {
  }

  lemma MultisetSwap<E>(a: multiset<E>, b: multiset<E>, c: multiset<E>)
    ensures a + b + c == a + c + b
  {
  }

  /** An entry of the tree after insertion was stored before or is the new one. */
  lemma InsertedMember<E>(t: Tree<E>, e: E, key: E -> real, y: E)
    requires y in InOrder(InsertTree(t, e, key))
    ensures y in InOrder(t) || y == e
  {
    InsertAddsEntry(t, e, key);
    assert y in multiset(InOrder(InsertTree(t, e, key)));
  }

  /** The keys of an ordered branch's subtrees, by index. */
  lemma SubtreeKeys<E>(l: Tree<E>, x: E, r: Tree<E>, key: E -> real)
    requires Ordered(Branch(l, x, r), key)
    ensures forall j :: 0 <= j < |InOrder(l)| ==> key(InOrder(l)[j]) <= key(x)
    ensures forall j :: 0 <= j < |InOrder(r)| ==> key(InOrder(r)[j]) > key(x)
  {
    forall j | 0 <= j < |InOrder(l)| ensures key(InOrder(l)[j]) <= key(x) {
      assert InOrder(l)[j] in InOrder(l);
    }
    forall j | 0 <= j < |InOrder(r)| ensures key(InOrder(r)[j]) > key(x) {
      assert InOrder(r)[j] in InOrder(r);
    }
  }

  /** Positions in the in-order sequence of an ordered branch: the node sits
      at index |InOrder(l)|, keys before it are at most its key, keys after
      it are greater. */
  lemma BranchPositions<E>(l: Tree<E>, x: E, r: Tree<E>, key: E -> real)
    requires Ordered(Branch(l, x, r), key)
    ensures var s, n := InOrder(Branch(l, x, r)), |InOrder(l)|;
      && n < |s| && s[n] == x
      && (forall j :: 0 <= j < n ==> s[j] == InOrder(l)[j] && key(s[j]) <= key(x))
      && (forall j :: n < j < |s| ==> s[j] == InOrder(r)[j - n - 1] && key(s[j]) > key(x))
  {
    var s, sl, sr, n := InOrder(Branch(l, x, r)), InOrder(l), InOrder(r), |InOrder(l)|;
    forall j | 0 <= j < n ensures s[j] == sl[j] && key(s[j]) <= key(x) {
      assert sl[j] in sl;
    }
    forall j | n < j < |s| ensures s[j] == sr[j - n - 1] && key(s[j]) > key(x) {
      assert sr[j - n - 1] in sr;
    }
  }

  /** Distinct keys in a branch carry over to both subtrees. */
  lemma DistinctSubtrees<E>(l: Tree<E>, x: E, r: Tree<E>, key: E -> real)
    requires DistinctKeys(Branch(l, x, r), key)
    ensures DistinctKeys(l, key) && DistinctKeys(r, key)
  {
    var s, sl, sr, n := InOrder(Branch(l, x, r)), InOrder(l), InOrder(r), |InOrder(l)|;
    forall i, j | 0 <= i < |sl| && 0 <= j < |sl| && i != j ensures key(sl[i]) != key(sl[j]) {
      assert sl[i] == s[i] && sl[j] == s[j];
    }
    forall i, j | 0 <= i < |sr| && 0 <= j < |sr| && i != j ensures key(sr[i]) != key(sr[j]) {
      assert sr[i] == s[n + 1 + i] && sr[j] == s[n + 1 + j];
    }
  }

  /** The converse of `DistinctSubtrees`: distinct keys in both subtrees,
      all below the node's key on the left and above it on the right. */
  lemma DistinctBranch<E>(l: Tree<E>, x: E, r: Tree<E>, key: E -> real)
    requires DistinctKeys(l, key) && DistinctKeys(r, key)
    requires forall j :: 0 <= j < |InOrder(l)| ==> key(InOrder(l)[j]) < key(x)
    requires forall j :: 0 <= j < |InOrder(r)| ==> key(InOrder(r)[j]) > key(x)
    ensures DistinctKeys(Branch(l, x, r), key)
  {
    var s, sl, sr, n := InOrder(Branch(l, x, r)), InOrder(l), InOrder(r), |InOrder(l)|;
    forall i, j | 0 <= i < |s| && 0 <= j < |s| && i != j ensures key(s[i]) != key(s[j]) {
      if i < n { assert s[i] == sl[i]; }
      else if i > n { assert s[i] == sr[i - n - 1]; }
      if j < n { assert s[j] == sl[j]; }
      else if j > n { assert s[j] == sr[j - n - 1]; }
    }
  }

  // ---------------------------------------------------------------------
  // Properties of the operations
  // ---------------------------------------------------------------------

  /** The leftmost entry of an ordered, non-empty tree has the least key. */
  lemma {:induction false} MinEdgeIsMinimum<E>(t: Tree<E>, key: E -> real)
    requires t.Branch? && Ordered(t, key)
    ensures MinEdge(t) in InOrder(t)
    ensures forall y :: y in InOrder(t) ==> key(MinEdge(t)) <= key(y)
  {
    if t.left.Branch? {
      MinEdgeIsMinimum(t.left, key);
      assert MinEdge(t) in InOrder(t.left);
    }
  }

  /** Insertion keeps the search-tree order. */
  lemma {:induction false} InsertPreservesOrder<E>(t: Tree<E>, e: E, key: E -> real)
    requires Ordered(t, key)
    ensures Ordered(InsertTree(t, e, key), key)
  {
    match t
    case Nil =>
    case Branch(l, x, r) =>
      if key(e) > key(x) {
        InsertPreservesOrder(r, e, key);
        forall y | y in InOrder(InsertTree(r, e, key)) ensures key(y) > key(x) {
          InsertedMember(r, e, key, y);
        }
      } else {
        InsertPreservesOrder(l, e, key);
        forall y | y in InOrder(InsertTree(l, e, key)) ensures key(y) <= key(x) {
          InsertedMember(l, e, key, y);
        }
      }
  }

  /** Insertion leaves every stored entry in place: the new in-order sequence
      is the old one with `e` spliced in after the entries whose key is less
      than key(e) and before those whose key is at least key(e) (ties go
      left, so `e` precedes entries with an equal key). */
  lemma {:induction false} InsertSplicesInOrder<E>(t: Tree<E>, e: E, key: E -> real)
    requires Ordered(t, key)
    ensures InOrder(InsertTree(t, e, key))
         == KeysBelow(InOrder(t), key(e), key) + [e] + KeysAtLeast(InOrder(t), key(e), key)
  {
    match t
    case Nil =>
    case Branch(l, x, r) =>
      SubtreeKeys(l, x, r, key);
      if key(e) > key(x) {
        InsertSplicesInOrder(r, e, key);
        SpliceRight(InOrder(l), x, InOrder(r), e, key);
      } else {
        InsertSplicesInOrder(l, e, key);
        SpliceLeft(InOrder(l), x, InOrder(r), e, key);
      }
  }

  /** The sequence step of InsertSplicesInOrder when `e` goes right. */
  lemma SpliceRight<E>(sl: seq<E>, x: E, sr: seq<E>, e: E, key: E -> real)
    requires key(x) < key(e)
    requires forall j :: 0 <= j < |sl| ==> key(sl[j]) <= key(x)
    ensures sl + [x] + (KeysBelow(sr, key(e), key) + [e] + KeysAtLeast(sr, key(e), key))
         == KeysBelow(sl + [x] + sr, key(e), key) + [e] + KeysAtLeast(sl + [x] + sr, key(e), key)
  {
    var k := key(e);
    var am, ab := KeysBelow(sr, k, key), KeysAtLeast(sr, k, key);
    FiltersAllBelow(sl, k, key);
    FiltersOfSingleton(x, k, key);
    FiltersOfConcat(sl, [x], k, key);
    assert KeysBelow(sl + [x], k, key) == sl + [x];
    assert KeysAtLeast(sl + [x], k, key) == [];
    FiltersOfConcat(sl + [x], sr, k, key);
    assert KeysBelow(sl + [x] + sr, k, key) == sl + [x] + am;
    assert KeysAtLeast(sl + [x] + sr, k, key) == ab;
    Assoc(sl + [x], am + [e], ab);
    Assoc(sl + [x], am, [e]);
  }

  /** The sequence step of InsertSplicesInOrder when `e` goes left. */
  lemma SpliceLeft<E>(sl: seq<E>, x: E, sr: seq<E>, e: E, key: E -> real)
    requires key(e) <= key(x)
    requires forall j :: 0 <= j < |sr| ==> key(sr[j]) > key(x)
    ensures (KeysBelow(sl, key(e), key) + [e] + KeysAtLeast(sl, key(e), key)) + [x] + sr
         == KeysBelow(sl + [x] + sr, key(e), key) + [e] + KeysAtLeast(sl + [x] + sr, key(e), key)
  {
    var k := key(e);
    var am, ab := KeysBelow(sl, k, key), KeysAtLeast(sl, k, key);
    FiltersAllAtLeast(sr, k, key);
    FiltersOfSingleton(x, k, key);
    FiltersOfConcat(sl, [x], k, key);
    assert KeysBelow(sl + [x], k, key) == am;
    assert KeysAtLeast(sl + [x], k, key) == ab + [x];
    FiltersOfConcat(sl + [x], sr, k, key);
    assert KeysBelow(sl + [x] + sr, k, key) == am;
    assert KeysAtLeast(sl + [x] + sr, k, key) == ab + [x] + sr;
    Assoc(am + [e], ab, [x]);
    Assoc(am + [e], ab + [x], sr);
  }

  /** Inserting an entry whose key is not yet stored keeps the keys
      distinct. */
  lemma {:induction false} InsertKeepsDistinct<E>(t: Tree<E>, e: E, key: E -> real)
    requires Ordered(t, key) && DistinctKeys(t, key)
    requires forall y :: y in InOrder(t) ==> key(y) != key(e)
    ensures DistinctKeys(InsertTree(t, e, key), key)
  {
    match t
    case Nil =>
    case Branch(l, x, r) =>
      var sl, n := InOrder(l), |InOrder(l)|;
      DistinctSubtrees(l, x, r, key);
      assert x in InOrder(t);
      assert forall j :: 0 <= j < n ==> key(sl[j]) < key(x) by {
        BranchPositions(l, x, r, key);
        forall j | 0 <= j < n ensures key(sl[j]) < key(x) {
          assert InOrder(t)[j] == sl[j] && InOrder(t)[n] == x;
        }
      }
      InsertPreservesOrder(t, e, key);
      if key(e) > key(x) {
        var r' := InsertTree(r, e, key);
        InsertKeepsDistinct(r, e, key);
        SubtreeKeys(l, x, r', key);
        DistinctBranch(l, x, r', key);
      } else {
        var l' := InsertTree(l, e, key);
        InsertKeepsDistinct(l, e, key);
        SubtreeKeys(l', x, r, key);
        SubtreeKeys(l, x, r, key);
        forall j | 0 <= j < |InOrder(l')| ensures key(InOrder(l')[j]) < key(x) {
          InsertedMember(l, e, key, InOrder(l')[j]);
        }
        DistinctBranch(l', x, r, key);
      }
  }

  /** Deleting a key that no stored entry has returns the tree unchanged:
      the search bottoms out at an empty subtree. */
  lemma {:induction false} DeleteAbsentUnchanged<E>(t: Tree<E>, e: E, key: E -> real)
    requires forall y :: y in InOrder(t) ==> key(y) != key(e)
    ensures DeleteTree(t, e, key) == t
  {
    match t
    case Nil =>
    case Branch(l, x, r) =>
      assert x in InOrder(t);
      if key(e) > key(x) {
        DeleteAbsentUnchanged(r, e, key);
      } else {
        DeleteAbsentUnchanged(l, e, key);
      }
  }

  /** Under distinct keys, deleting by the key of the entry at in-order
      position `i` removes exactly that entry and keeps the order of all
      others; this covers the two-children case that copies the in-order
      successor and deletes it from the right subtree. */
  lemma {:induction false} DeleteRemovesEntry<E>(t: Tree<E>, e: E, key: E -> real, i: nat)
    requires Ordered(t, key) && DistinctKeys(t, key)
    requires i < |InOrder(t)| && key(InOrder(t)[i]) == key(e)
    ensures InOrder(DeleteTree(t, e, key)) == InOrder(t)[..i] + InOrder(t)[i + 1..]
    decreases t, 2
  {
    var Branch(l, x, r) := t;
    var n := |InOrder(l)|;
    LocateIndex(l, x, r, key, i);
    DistinctSubtrees(l, x, r, key);
    if key(e) > key(x) {
      var j := i - n - 1;
      DeleteInRight(l, x, r, e, key, j);
      assert InOrder(l) + [x] + (InOrder(r)[..j] + InOrder(r)[j + 1..])
          == InOrder(t)[..i] + InOrder(t)[i + 1..] by {
        RemoveInRight(InOrder(l), x, InOrder(r), j);
      }
    } else if key(e) < key(x) {
      DeleteInLeft(l, x, r, e, key, i);
    } else {
      DeleteAtRoot(l, x, r, e, key);
    }
  }

  /** The right-subtree case of `DeleteRemovesEntry`: entry `j` of the right
      subtree leaves it, the rest of the branch is untouched. */
  lemma {:induction false} DeleteInRight<E>(l: Tree<E>, x: E, r: Tree<E>, e: E, key: E -> real, j: nat)
    requires Ordered(r, key) && DistinctKeys(r, key) && key(e) > key(x)
    requires j < |InOrder(r)| && key(InOrder(r)[j]) == key(e)
    ensures InOrder(DeleteTree(Branch(l, x, r), e, key))
         == InOrder(l) + [x] + (InOrder(r)[..j] + InOrder(r)[j + 1..])
    decreases Branch(l, x, r), 0
  {
    assert DeleteTree(Branch(l, x, r), e, key) == Branch(l, x, DeleteTree(r, e, key));
    DeleteRemovesEntry(r, e, key, j);
  }

  /** The left-subtree case of `DeleteRemovesEntry`. */
  lemma {:induction false} DeleteInLeft<E>(l: Tree<E>, x: E, r: Tree<E>, e: E, key: E -> real, i: nat)
    requires Ordered(l, key) && DistinctKeys(l, key) && key(e) < key(x)
    requires i < |InOrder(l)| && key(InOrder(l)[i]) == key(e)
    ensures var s := InOrder(Branch(l, x, r));
      InOrder(DeleteTree(Branch(l, x, r), e, key)) == s[..i] + s[i + 1..]
    decreases Branch(l, x, r), 0
  {
    assert InOrder(DeleteTree(Branch(l, x, r), e, key))
        == InOrder(DeleteTree(l, e, key)) + [x] + InOrder(r);
    DeleteRemovesEntry(l, e, key, i);
    RemoveInLeft(InOrder(l), x, InOrder(r), i);
  }

  /** The case of `DeleteRemovesEntry` where the root itself goes: a missing
      child lets the other take its place, and otherwise the in-order
      successor moves up (`DeleteSuccessor`). */
  lemma {:induction false} DeleteAtRoot<E>(l: Tree<E>, x: E, r: Tree<E>, e: E, key: E -> real)
    requires Ordered(r, key) && DistinctKeys(r, key) && key(e) == key(x)
    ensures var s, n := InOrder(Branch(l, x, r)), |InOrder(l)|;
      InOrder(DeleteTree(Branch(l, x, r), e, key)) == s[..n] + s[n + 1..]
    decreases Branch(l, x, r), 1
  {
    var sl, sr := InOrder(l), InOrder(r);
    RemoveRoot(sl, x, sr);
    if l.Nil? {
      assert sl + sr == sr;
    } else if r.Nil? {
      assert sl + sr == sl;
    } else {
      DeleteSuccessor(l, x, r, e, key);
    }
  }

  /** Deleting the root of a branch with two children: the first entry of
      the right subtree takes the root's place and leaves the right subtree,
      so the in-order sequence loses exactly the old root. */
  lemma {:induction false} DeleteSuccessor<E>(l: Tree<E>, x: E, r: Tree<E>, e: E, key: E -> real)
    requires Ordered(r, key) && DistinctKeys(r, key) && key(e) == key(x)
    requires l.Branch? && r.Branch?
    ensures InOrder(DeleteTree(Branch(l, x, r), e, key)) == InOrder(l) + InOrder(r)
    decreases Branch(l, x, r), 0
  {
    var m := MinEdge(r);
    assert DeleteTree(Branch(l, x, r), e, key) == Branch(l, m, DeleteTree(r, m, key));
    DeleteRemovesEntry(r, m, key, 0);
    SuccessorSplice(InOrder(l), m, InOrder(r), InOrder(DeleteTree(r, m, key)));
  }

  lemma SuccessorSplice<E>(sl: seq<E>, m: E, sr: seq<E>, sr': seq<E>)
    requires |sr| > 0 && sr[0] == m && sr' == sr[..0] + sr[1..]
    ensures sl + [m] + sr' == sl + sr
  {
    assert sr == [m] + sr';
  }

  /** Under distinct keys, deletion keeps the search-tree order. */
  lemma {:induction false} DeletePreservesOrder<E>(t: Tree<E>, e: E, key: E -> real)
    requires Ordered(t, key) && DistinctKeys(t, key)
    ensures Ordered(DeleteTree(t, e, key), key)
  {
    match t
    case Nil =>
    case Branch(l, x, r) =>
      DistinctSubtrees(l, x, r, key);
      if key(e) > key(x) {
        DeletePreservesOrder(r, e, key);
      } else if key(e) < key(x) {
        DeletePreservesOrder(l, e, key);
      } else if l.Branch? && r.Branch? {
        var m := MinEdge(r);
        MinEdgeIsMinimum(r, key);
        DeletePreservesOrder(r, m, key);
        DeleteRemovesEntry(r, m, key, 0);
        SuccessorBelowRest(r, key);
      }
  }

  /** Where the entry at in-order position `i` of an ordered branch with
      distinct keys lies, decided by comparing its key with the node's. */
  lemma LocateIndex<E>(l: Tree<E>, x: E, r: Tree<E>, key: E -> real, i: nat)
    requires Ordered(Branch(l, x, r), key) && DistinctKeys(Branch(l, x, r), key)
    requires i < |InOrder(Branch(l, x, r))|
    ensures var s, n := InOrder(Branch(l, x, r)), |InOrder(l)|;
      && (key(s[i]) > key(x) ==> n < i && s[i] == InOrder(r)[i - n - 1])
      && (key(s[i]) < key(x) ==> i < n && s[i] == InOrder(l)[i])
      && (key(s[i]) == key(x) ==> i == n)
  {
    BranchPositions(l, x, r, key);
  }

  /** In an ordered tree with distinct keys, every entry after the first
      in-order one has a strictly greater key than the leftmost entry. */
  lemma SuccessorBelowRest<E>(r: Tree<E>, key: E -> real)
    requires r.Branch? && Ordered(r, key) && DistinctKeys(r, key)
    ensures forall y :: y in InOrder(r)[1..] ==> key(y) > key(MinEdge(r))
  {
    var sr, m := InOrder(r), MinEdge(r);
    MinEdgeIsMinimum(r, key);
    forall y | y in sr[1..] ensures key(y) > key(m) {
      var k :| 0 <= k < |sr[1..]| && sr[1..][k] == y;
      assert sr[k + 1] == y && sr[0] == m;
      assert sr[k + 1] in sr;
    }
  }

  lemma RemoveInRight<E>(sl: seq<E>, x: E, sr: seq<E>, j: nat)
    requires j < |sr|
    ensures var s, i := sl + [x] + sr, |sl| + 1 + j;
      sl + [x] + (sr[..j] + sr[j + 1..]) == s[..i] + s[i + 1..]
  {
    var s, i := sl + [x] + sr, |sl| + 1 + j;
    assert s[..i] == sl + [x] + sr[..j];
    assert s[i + 1..] == sr[j + 1..];
  }

  lemma RemoveInLeft<E>(sl: seq<E>, x: E, sr: seq<E>, i: nat)
    requires i < |sl|
    ensures var s := sl + [x] + sr;
      (sl[..i] + sl[i + 1..]) + [x] + sr == s[..i] + s[i + 1..]
  {
    var s := sl + [x] + sr;
    assert s[..i] == sl[..i];
    assert s[i + 1..] == sl[i + 1..] + [x] + sr;
  }

  lemma RemoveRoot<E>(sl: seq<E>, x: E, sr: seq<E>)
    ensures var s, n := sl + [x] + sr, |sl|;
      s[..n] + s[n + 1..] == sl + sr
  {
    var s, n := sl + [x] + sr, |sl|;
    assert s[..n] == sl;
    assert s[n + 1..] == sr;
  }

  /** Deletion under distinct keys, stated on contents: one occurrence of the
      matching entry leaves the multiset and the size drops by one. */
  lemma DeleteRemovesOne<E>(t: Tree<E>, e: E, key: E -> real, y: E)
    requires Ordered(t, key) && DistinctKeys(t, key)
    requires y in InOrder(t) && key(y) == key(e)
    ensures multiset(InOrder(DeleteTree(t, e, key))) == multiset(InOrder(t)) - multiset{y}
    ensures |InOrder(DeleteTree(t, e, key))| == |InOrder(t)| - 1
    ensures Ordered(DeleteTree(t, e, key), key)
  {
    var s := InOrder(t);
    var i :| 0 <= i < |s| && s[i] == y;
    DeleteRemovesEntry(t, e, key, i);
    DeletePreservesOrder(t, e, key);
    MultisetRemoveAt(s, i);
  }

  lemma MultisetRemoveAt<E>(s: seq<E>, i: nat)
    requires i < |s|
    ensures multiset(s[..i] + s[i + 1..]) == multiset(s) - multiset{s[i]}
    ensures |s[..i] + s[i + 1..]| == |s| - 1
  {
    assert s == s[..i] + [s[i]] + s[i + 1..];
  }

  /** Inserting an entry whose key is not stored and deleting it again gives
      back the very same tree. */
  lemma {:induction false} DeleteAfterInsert<E>(t: Tree<E>, e: E, key: E -> real)
    requires forall y :: y in InOrder(t) ==> key(y) != key(e)
    ensures DeleteTree(InsertTree(t, e, key), e, key) == t
  {
    match t
    case Nil =>
    case Branch(l, x, r) =>
      assert x in InOrder(t);
      if key(e) > key(x) {
        DeleteAfterInsert(r, e, key);
      } else {
        DeleteAfterInsert(l, e, key);
      }
  }

  /** Keys for `EqualKeysBreakDelete`: entry k has key k, except that
      entry 3 shares key 2 with entry 2. */
  function SharedKey(k: int): real
  {
    if k == 3 then 2.0 else k as real
  }

  /** Why deletion needs distinct keys: entries 0, 1, 2, 3 with keys 0, 1, 2,
      2 form the ordered tree 1(0, 3(2, -)). Deleting entry 1 copies its
      successor 2 up, and the follow-up search for key 2 stops at entry 3 and
      removes it instead, leaving 2 stored twice. */
  lemma EqualKeysBreakDelete()
    ensures var t := Branch(Branch(Nil, 0, Nil), 1, Branch(Branch(Nil, 2, Nil), 3, Nil));
      && Ordered(t, SharedKey)
      && InOrder(DeleteTree(t, 1, SharedKey)) == [0, 2, 2]
      && !Ordered(DeleteTree(t, 1, SharedKey), SharedKey)
  {
    var a, m := Branch(Nil, 0, Nil), Branch(Nil, 2, Nil);
    var z := Branch(m, 3, Nil);
    var t := Branch(a, 1, z);
    var d := Branch(a, 2, m);
    assert Ordered(t, SharedKey) by {
      assert InOrder(a) == [0] && InOrder(m) == [2] && InOrder(z) == [2, 3];
      assert Ordered(a, SharedKey) && Ordered(m, SharedKey);
      assert Ordered(z, SharedKey);
    }
    assert DeleteTree(t, 1, SharedKey) == d by {
      assert MinEdge(z) == 2;
      assert DeleteTree(z, 2, SharedKey) == m by {
        assert SharedKey(2) == SharedKey(3);
      }
    }
    assert InOrder(d) == [0, 2, 2];
    assert !Ordered(d, SharedKey) by {
      assert 2 in InOrder(m) && !(SharedKey(2) > SharedKey(2));
    }
  }
}
