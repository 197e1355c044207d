/**
 * Search by key comparison: the node holding a key, the keys visited on the
 * way to it, and the node whose child holds it.
 */
module Lookup {
  import opened Trees

  /** The subtree rooted at the node holding `k`, or `Empty` when the walk
      from the root falls off the tree. */
  function Find(t: Tree, k: int): (r: Tree)
    ensures r.Node? ==> r.key == k && IsSubtree(r, t)
    ensures IsBST(t) ==> (r.Node? <==> k in Keys(t))
    ensures Keys(r) <= Keys(t)
  {
    match t
    case Empty => Empty
    case Node(l, x, rt) =>
      if k < x then Find(l, k) else if k > x then Find(rt, k) else t
  }

  /** The keys compared on the walk from the root towards `k`, in order;
      its length is the depth of `k`, counted in nodes. */
  function SearchPath(t: Tree, k: int): (p: seq<int>)
    ensures forall y :: y in p ==> y in Keys(t)
    ensures |p| <= Height(t)
    ensures IsBST(t) && k in Keys(t) ==> |p| >= 1 && p[|p| - 1] == k
    ensures forall i :: 0 <= i < |p| - 1 ==> p[i] != k
  {
    match t
    case Empty => []
    case Node(l, x, r) =>
      if k < x then
        assert IsBST(t) && k in Keys(t) ==> k in Keys(l) by {
          if IsBST(t) && k in Keys(t) {
            assert Keys(t) == Keys(l) + {x} + Keys(r);
            assert k !in Keys(r);
          }
        }
        [x] + SearchPath(l, k)
      else if k > x then
        assert IsBST(t) && k in Keys(t) ==> k in Keys(r) by {
          if IsBST(t) && k in Keys(t) {
            assert Keys(t) == Keys(l) + {x} + Keys(r);
            assert k !in Keys(l);
          }
        }
        [x] + SearchPath(r, k)
      else [x]
  }

  /** The node one of whose children holds `k`; `Empty` when `k` is at the
      root or is not in the tree. */
  function Parent(t: Tree, k: int): (p: Tree)
    ensures p.Node? ==> IsSubtree(p, t) && p.key in Keys(t) && (HasKey(p.left, k) || HasKey(p.right, k))
    ensures IsBST(t) ==> (p.Node? <==> k in Keys(t) && !HasKey(t, k))
  {
    match t
    case Empty => Empty
    case Node(l, x, r) =>
      if x == k then Empty
      else if HasKey(l, k) || HasKey(r, k) then t
      else if k > x then Parent(r, k) else Parent(l, k)
  }

  /** The parent sits one level above the node it leads to. */
  lemma {:induction false} ParentIsOneLevelUp(t: Tree, k: int)
    requires IsBST(t) && Parent(t, k).Node?
    ensures |SearchPath(t, Parent(t, k).key)| + 1 == |SearchPath(t, k)|
  {
    match t
    case Node(l, x, r) =>
      if HasKey(l, k) {
        assert k in Keys(l);
      } else if HasKey(r, k) {
        assert k in Keys(r);
      } else if k > x {
        ParentIsOneLevelUp(r, k);
        assert Parent(r, k).key in Keys(r);
      } else {
        ParentIsOneLevelUp(l, k);
        assert Parent(l, k).key in Keys(l);
      }
  }
}
