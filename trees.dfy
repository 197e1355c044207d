/**
 * The node structure of the binary search tree, its key set, its three
 * traversal orders and its height, with the laws that relate them.
 */
module Trees {

  /** A node holds one key and owns its two subtrees; `Empty` stands for the
      absent node (the source's null child and its null-keyed empty root). */
  datatype Tree = Empty | Node(left: Tree, key: int, right: Tree)

  datatype Option<T> = None | Some(value: T)

  function Leaf(k: int): Tree { Node(Empty, k, Empty) }

  /** True when `t` is a node holding key `k`. */
  predicate HasKey(t: Tree, k: int) { t.Node? && t.key == k }

  function Max(a: int, b: int): int { if a >= b then a else b }

  function Pow2(h: nat): nat { if h == 0 then 1 else 2 * Pow2(h - 1) }

  /** The keys reachable from `t`. */
  function Keys(t: Tree): set<int> {
    match t
    case Empty => {}
    case Node(l, x, r) => Keys(l) + {x} + Keys(r)
  }

  function NodeCount(t: Tree): nat {
    match t
    case Empty => 0
    case Node(l, _, r) => NodeCount(l) + 1 + NodeCount(r)
  }

  /** The ordering invariant: every key on the left is smaller than the
      node's key, every key on the right is greater. */
  ghost predicate IsBST(t: Tree) {
    match t
    case Empty => true
    case Node(l, x, r) =>
      && IsBST(l) && IsBST(r)
      && (forall y :: y in Keys(l) ==> y < x)
      && (forall y :: y in Keys(r) ==> x < y)
  }

  ghost predicate IsSubtree(u: Tree, t: Tree) {
    u == t || (t.Node? && (IsSubtree(u, t.left) || IsSubtree(u, t.right)))
  }

  ghost predicate StrictlySorted(s: seq<int>) {
    forall i, j :: 0 <= i < j < |s| ==> s[i] < s[j]
  }

  function PreOrder(t: Tree): seq<int> {
    match t
    case Empty => []
    case Node(l, x, r) => [x] + PreOrder(l) + PreOrder(r)
  }

  function InOrder(t: Tree): seq<int> {
    match t
    case Empty => []
    case Node(l, x, r) => InOrder(l) + [x] + InOrder(r)
  }

  function PostOrder(t: Tree): seq<int> {
    match t
    case Empty => []
    case Node(l, x, r) => PostOrder(l) + PostOrder(r) + [x]
  }

  /** Height counted in nodes: 0 for the empty tree, 1 for a lone root. */
  function Height(t: Tree): nat {
    match t
    case Empty => 0
    case Node(l, _, r) => 1 + Max(Height(l), Height(r))
  }

  /** The source's height walk: `deepestHeight` is the depth of `t`, and the
      result is the depth of the deepest node below it. */
  function RecurCheckDepth(t: Tree, deepestHeight: int): (r: int)
    requires t.Node?
    ensures r == deepestHeight + Height(t) - 1
  {
    if t.left.Empty? && t.right.Empty? then deepestHeight
    else if t.left.Node? then
      if t.right.Node? then
        Max(RecurCheckDepth(t.left, deepestHeight + 1), RecurCheckDepth(t.right, deepestHeight + 1))
      else RecurCheckDepth(t.left, deepestHeight + 1)
    else RecurCheckDepth(t.right, deepestHeight + 1)
  }

  lemma AppendAssoc(a: seq<int>, b: seq<int>, c: seq<int>)
    ensures a + (b + c) == (a + b) + c
  {
  }

  /** The pre-order walk, appending to an accumulator as the source does. */
  function RecurPreOrder(t: Tree, acc: seq<int>): (r: seq<int>)
    ensures r == acc + PreOrder(t)
  {
    match t
    case Empty => acc
    case Node(l, x, rt) =>
      var a1 := acc + [x];
      var a2 := if l.Node? then RecurPreOrder(l, a1) else a1;
      assert a2 == a1 + PreOrder(l) by {
        if l.Empty? { assert a1 + [] == a1; }
      }
      assert a2 + PreOrder(rt) == acc + PreOrder(t) by {
        AppendAssoc(acc, [x] + PreOrder(l), PreOrder(rt));
        AppendAssoc(acc, [x], PreOrder(l));
      }
      assert rt.Empty? ==> a2 + PreOrder(rt) == a2 by {
        if rt.Empty? { assert a2 + [] == a2; }
      }
      if rt.Node? then RecurPreOrder(rt, a2) else a2
  }

  /** The in-order walk with an accumulator. */
  function RecurInOrder(t: Tree, acc: seq<int>): (r: seq<int>)
    ensures r == acc + InOrder(t)
  {
    match t
    case Empty => acc
    case Node(l, x, rt) =>
      var a1 := if l.Node? then RecurInOrder(l, acc) else acc;
      var a2 := a1 + [x];
      assert a1 == acc + InOrder(l) by {
        if l.Empty? { assert acc + [] == acc; }
      }
      assert a2 + InOrder(rt) == acc + InOrder(t) by {
        AppendAssoc(acc, InOrder(l) + [x], InOrder(rt));
        AppendAssoc(acc, InOrder(l), [x]);
      }
      assert rt.Empty? ==> a2 + InOrder(rt) == a2 by {
        if rt.Empty? { assert a2 + [] == a2; }
      }
      if rt.Node? then RecurInOrder(rt, a2) else a2
  }

  /** The post-order walk with an accumulator. */
  function RecurPostOrder(t: Tree, acc: seq<int>): (r: seq<int>)
    ensures r == acc + PostOrder(t)
  {
    match t
    case Empty => acc
    case Node(l, x, rt) =>
      var a1 := if l.Node? then RecurPostOrder(l, acc) else acc;
      var a2 := if rt.Node? then RecurPostOrder(rt, a1) else a1;
      assert a1 == acc + PostOrder(l) by {
        if l.Empty? { assert acc + [] == acc; }
      }
      assert a2 == a1 + PostOrder(rt) by {
        if rt.Empty? { assert a1 + [] == a1; }
      }
      assert a2 + [x] == acc + PostOrder(t) by {
        AppendAssoc(acc, PostOrder(l) + PostOrder(rt), [x]);
        AppendAssoc(acc, PostOrder(l), PostOrder(rt));
      }
      a2 + [x]
  }

  /** The three traversals list the same keys with the same multiplicities. */
  lemma {:induction false} TraversalsArePermutations(t: Tree)
    ensures multiset(PreOrder(t)) == multiset(InOrder(t))
    ensures multiset(PostOrder(t)) == multiset(InOrder(t))
  {
    match t
    case Empty =>
    case Node(l, x, r) =>
      TraversalsArePermutations(l);
      TraversalsArePermutations(r);
      var ml, mr := multiset(InOrder(l)), multiset(InOrder(r));
      assert multiset(InOrder(t)) == ml + multiset{x} + mr;
      assert multiset(PreOrder(t)) == multiset{x} + ml + mr;
      assert multiset(PostOrder(t)) == ml + mr + multiset{x};
  }

  /** Each traversal lists every node exactly once. */
  lemma {:induction false} TraversalLengths(t: Tree)
    ensures |PreOrder(t)| == |InOrder(t)| == |PostOrder(t)| == NodeCount(t)
  {
    match t
    case Empty =>
    case Node(l, x, r) =>
      TraversalLengths(l);
      TraversalLengths(r);
  }

  /** A key appears in a traversal exactly when it is reachable. */
  lemma {:induction false} TraversalKeys(t: Tree)
    ensures forall k :: k in InOrder(t) <==> k in Keys(t)
    ensures forall k :: k in PreOrder(t) <==> k in Keys(t)
    ensures forall k :: k in PostOrder(t) <==> k in Keys(t)
  {
    match t
    case Empty =>
    case Node(l, x, r) =>
      TraversalKeys(l);
      TraversalKeys(r);
  }

  lemma SortedSplit(a: seq<int>, x: int, b: seq<int>)
    ensures StrictlySorted(a + [x] + b) <==>
      && StrictlySorted(a) && StrictlySorted(b)
      && (forall y :: y in a ==> y < x)
      && (forall y :: y in b ==> x < y)
  {
    var s := a + [x] + b;
    if StrictlySorted(s) {
      forall i, j | 0 <= i < j < |a| ensures a[i] < a[j] {
        assert s[i] == a[i] && s[j] == a[j];
      }
      forall i, j | 0 <= i < j < |b| ensures b[i] < b[j] {
        assert s[|a| + 1 + i] == b[i] && s[|a| + 1 + j] == b[j];
      }
      forall y | y in a ensures y < x {
        var i :| 0 <= i < |a| && a[i] == y;
        assert s[i] == y && s[|a|] == x;
      }
      forall y | y in b ensures x < y {
        var i :| 0 <= i < |b| && b[i] == y;
        assert s[|a| + 1 + i] == y && s[|a|] == x;
      }
    }
    if && StrictlySorted(a) && StrictlySorted(b)
       && (forall y :: y in a ==> y < x)
       && (forall y :: y in b ==> x < y)
    {
      forall i, j | 0 <= i < j < |s| ensures s[i] < s[j] {
        if j < |a| {
          assert s[i] == a[i] && s[j] == a[j];
        } else if j == |a| {
          assert s[i] == a[i] && a[i] in a;
        } else if i < |a| {
          assert s[i] == a[i] && a[i] in a;
          assert s[j] == b[j - |a| - 1] && b[j - |a| - 1] in b;
        } else if i == |a| {
          assert s[j] == b[j - |a| - 1] && b[j - |a| - 1] in b;
        } else {
          assert s[i] == b[i - |a| - 1] && s[j] == b[j - |a| - 1];
        }
      }
    }
  }

  /** The ordering invariant holds exactly when the in-order traversal is
      strictly ascending. */
  lemma {:induction false} BstIffSortedInOrder(t: Tree)
    ensures IsBST(t) <==> StrictlySorted(InOrder(t))
  {
    match t
    case Empty =>
    case Node(l, x, r) =>
      BstIffSortedInOrder(l);
      BstIffSortedInOrder(r);
      TraversalKeys(l);
      TraversalKeys(r);
      SortedSplit(InOrder(l), x, InOrder(r));
  }

  /** A search tree has no duplicate keys, so its key set has one key per node. */
  lemma {:induction false} KeyCountIsNodeCount(t: Tree)
    requires IsBST(t)
    ensures |Keys(t)| == NodeCount(t)
  {
    match t
    case Empty =>
    case Node(l, x, r) =>
      KeyCountIsNodeCount(l);
      KeyCountIsNodeCount(r);
      var kl, kr := Keys(l), Keys(r);
      var kx := kl + {x};
      assert |kx| == |kl| + 1 by {
        assert x !in kl;
      }
      assert kx * kr == {} by {
        forall y | y in kx ensures y !in kr { }
      }
      assert Keys(t) == kx + kr;
  }

  lemma {:induction false} Pow2Monotone(a: nat, b: nat)
    requires a <= b
    ensures 1 <= Pow2(a) <= Pow2(b)
    decreases b
  {
    if b > 0 {
      if a < b { Pow2Monotone(a, b - 1); } else { Pow2Monotone(a - 1, b - 1); }
    }
  }

  /** A tree of height h holds between h and 2^h - 1 nodes. */
  lemma {:induction false} HeightBounds(t: Tree)
    ensures Height(t) <= NodeCount(t) < Pow2(Height(t))
  {
    match t
    case Empty =>
    case Node(l, _, r) =>
      HeightBounds(l);
      HeightBounds(r);
      var hl, hr := Height(l), Height(r);
      var m := Max(hl, hr);
      Pow2Monotone(hl, m);
      Pow2Monotone(hr, m);
      assert Pow2(m + 1) == 2 * Pow2(m);
  }
}
