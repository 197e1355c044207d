/**
 * Three-case deletion: a leaf is unlinked, a node with one child is replaced
 * by that child, and a node with two children takes the key of its in-order
 * successor, which is then spliced out of the right subtree.
 */
module Deletion {
  import opened Trees
  import opened Lookup
  import opened Insertion

  /** The successor walk: follow left pointers to the leftmost node. */
  function MinKey(t: Tree): (m: int)
    requires t.Node?
    ensures m in Keys(t)
    ensures IsBST(t) ==> forall y :: y in Keys(t) ==> m <= y
    ensures |InOrder(t)| > 0 && InOrder(t)[0] == m
  {
    if t.left.Empty? then t.key else MinKey(t.left)
  }

  /** Splices the leftmost node out, putting its right child in its place. */
  function DeleteMin(t: Tree): (r: Tree)
    requires t.Node?
    ensures IsBST(t) ==> IsBST(r) && Keys(r) == Keys(t) - {MinKey(t)}
    ensures NodeCount(r) == NodeCount(t) - 1
  {
    if t.left.Empty? then t.right
    else Node(DeleteMin(t.left), t.key, t.right)
  }

  /** What takes the place of a removed node `n`. */
  function RemoveRoot(n: Tree): (r: Tree)
    requires n.Node?
    ensures IsBST(n) ==> IsBST(r) && Keys(r) == Keys(n) - {n.key}
    ensures NodeCount(r) == NodeCount(n) - 1
    ensures r.Node? ==> r.key in Keys(n)
    ensures n.left.Empty? ==> r == n.right
    ensures n.right.Empty? ==> r == n.left
    ensures IsBST(n) && n.left.Node? && n.right.Node? ==>
      && r.Node? && r.left == n.left
      && n.key < r.key
      && (forall y :: y in Keys(n) && n.key < y ==> r.key <= y)
  {
    if n.left.Empty? && n.right.Empty? then Empty
    else if n.left.Empty? then n.right
    else if n.right.Empty? then n.left
    else Node(n.left, MinKey(n.right), DeleteMin(n.right))
  }

  /** The tree after removing key `k`; the whole tree is left as it is when
      `k` is absent, and the root is replaced when `k` is at the root. */
  function Delete(t: Tree, k: int): (r: Tree)
    ensures IsBST(t) ==> IsBST(r) && Keys(r) == Keys(t) - {k}
    ensures IsBST(t) ==> NodeCount(r) == NodeCount(t) - (if k in Keys(t) then 1 else 0)
    ensures k !in Keys(t) ==> r == t
  {
    match t
    case Empty => Empty
    case Node(l, x, rt) =>
      if k < x then Node(Delete(l, k), x, rt)
      else if k > x then Node(l, x, Delete(rt, k))
      else RemoveRoot(t)
  }

  /** Adding a fresh key and then removing it gives back the same tree:
      adding attaches exactly one new leaf and changes nothing else. */
  lemma {:induction false} DeleteUndoesAdd(t: Tree, k: int)
    requires k !in Keys(t)
    ensures Delete(AddKey(t, k), k) == t
  {
    if t.Node? {
      DeleteUndoesCheckAndPlace(t, k);
    }
  }

  lemma {:induction false} DeleteUndoesCheckAndPlace(t: Tree, k: int)
    requires t.Node? && k !in Keys(t)
    ensures Delete(CheckAndPlace(t, k), k) == t
  {
    if k > t.key {
      if t.right.Node? { DeleteUndoesCheckAndPlace(t.right, k); }
    } else {
      if t.left.Node? { DeleteUndoesCheckAndPlace(t.left, k); }
    }
  }

  /** Removing a leaf only clears its parent's pointer: adding the key back
      puts the leaf where it was. */
  lemma {:induction false} LeafRemovalUndoneByAdd(t: Tree, k: int)
    requires IsBST(t) && Find(t, k) == Leaf(k)
    ensures AddKey(Delete(t, k), k) == t
  {
    match t
    case Node(l, x, r) =>
      if k < x {
        var d := Delete(l, k);
        assert k !in Keys(r);
        if l == Leaf(k) {
          assert d == Empty;
        } else {
          assert l.key != k;
          LeafRemovalUndoneByAdd(l, k);
        }
      } else if k > x {
        var d := Delete(r, k);
        assert k !in Keys(l);
        if r == Leaf(k) {
          assert d == Empty;
        } else {
          assert r.key != k;
          LeafRemovalUndoneByAdd(r, k);
        }
      }
  }

  /** The removed node's slot is taken over in place: whatever replaces it
      (its sole child, or the node now holding the successor key) is what a
      search for its key finds after the removal. */
  lemma {:induction false} ReplacementIsFound(t: Tree, k: int)
    requires IsBST(t) && k in Keys(t)
    requires RemoveRoot(Find(t, k)).Node?
    ensures Find(Delete(t, k), RemoveRoot(Find(t, k)).key) == RemoveRoot(Find(t, k))
  {
    match t
    case Node(l, x, r) =>
      if k < x {
        assert k in Keys(l);
        ReplacementIsFound(l, k);
        assert RemoveRoot(Find(l, k)).key in Keys(l);
      } else if k > x {
        assert k in Keys(r);
        ReplacementIsFound(r, k);
        assert RemoveRoot(Find(r, k)).key in Keys(r);
      }
  }

  lemma PrefixThenLast(x: int, p: seq<int>, y: int)
    requires |p| >= 1
    ensures ([x] + p)[..|[x] + p| - 1] + [y] == [x] + (p[..|p| - 1] + [y])
  {
    assert ([x] + p)[..|p|] == [x] + p[..|p| - 1];
  }

  /** ... and it is reached through the same ancestors as the removed node. */
  lemma {:induction false} ReplacementKeepsPath(t: Tree, k: int)
    requires IsBST(t) && k in Keys(t)
    requires RemoveRoot(Find(t, k)).Node?
    ensures var path := SearchPath(t, k);
      SearchPath(Delete(t, k), RemoveRoot(Find(t, k)).key) == path[..|path| - 1] + [RemoveRoot(Find(t, k)).key]
  {
    match t
    case Node(l, x, r) =>
      var m := RemoveRoot(Find(t, k));
      if k < x {
        assert k in Keys(l) && Find(t, k) == Find(l, k);
        assert m.key < x by {
          assert m.key in Keys(Find(l, k));
        }
        ReplacementKeepsPath(l, k);
        PrefixThenLast(x, SearchPath(l, k), m.key);
      } else if k > x {
        assert k in Keys(r) && Find(t, k) == Find(r, k);
        assert x < m.key by {
          assert m.key in Keys(Find(r, k));
        }
        ReplacementKeepsPath(r, k);
        PrefixThenLast(x, SearchPath(r, k), m.key);
      } else {
        assert SearchPath(m, m.key) == [m.key];
      }
  }
}
