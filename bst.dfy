/**
 * The binary search tree object: a root and the index of all keys present,
 * kept equal to the keys reachable from the root by every operation.
 */
module Bst {
  import opened Trees
  import opened Lookup
  import opened Insertion
  import opened Deletion
  import opened Rebalance

  /** The sign of `compareTo` for integer keys. */
  function Compare(x: int, y: int): (d: int)
    ensures d < 0 <==> x < y
    ensures d > 0 <==> y < x
  {
    if x < y then -1 else if x > y then 1 else 0
  }

  lemma AddAllThree(t: Tree, x: int, a: seq<int>, b: seq<int>)
    ensures AddAll(t, [x] + a + b) == AddAll(AddAll(AddKey(t, x), a), b)
  {
    assert [x][..0] == [];
    assert AddAll(t, [x]) == AddKey(t, x);
    AddAllAppend(t, [x], a);
    AddAllAppend(t, [x] + a, b);
  }

  /** The tree after inserting the keys of `ordKeys[left..right]` (both
      ends included) into `t`, the midpoint key first and then each side the
      same way. */
  function MidpointInsertions(t: Tree, ordKeys: seq<int>, left: int, right: int): Tree
    requires 0 <= left <= right + 1 <= |ordKeys|
    decreases right - left + 1
  {
    if left > right then t
    else
      var mid := (left + right) / 2;
      MidpointInsertions(MidpointInsertions(AddKey(t, ordKeys[mid]), ordKeys, left, mid - 1),
        ordKeys, mid + 1, right)
  }

  /** Those insertions are the pre-order replay of the midpoint build. */
  lemma {:induction false} MidpointInsertionsReplayPreOrder(t: Tree, ordKeys: seq<int>, left: int, right: int)
    requires 0 <= left <= right + 1 <= |ordKeys|
    ensures MidpointInsertions(t, ordKeys, left, right) == AddAll(t, PreOrder(Build(ordKeys, left, right)))
    decreases right - left + 1
  {
    if left <= right {
      var mid := (left + right) / 2;
      var x := ordKeys[mid];
      var lower, upper := PreOrder(Build(ordKeys, left, mid - 1)), PreOrder(Build(ordKeys, mid + 1, right));
      var t1 := AddKey(t, x);
      var t2 := MidpointInsertions(t1, ordKeys, left, mid - 1);
      assert PreOrder(Build(ordKeys, left, right)) == [x] + lower + upper;
      assert t2 == AddAll(t1, lower) by {
        MidpointInsertionsReplayPreOrder(t1, ordKeys, left, mid - 1);
      }
      assert MidpointInsertions(t2, ordKeys, mid + 1, right) == AddAll(t2, upper) by {
        MidpointInsertionsReplayPreOrder(t2, ordKeys, mid + 1, right);
      }
      assert AddAll(t, [x] + lower + upper) == AddAll(AddAll(t1, lower), upper) by {
        AddAllThree(t, x, lower, upper);
      }
    }
  }

  /** Inserting ascending keys midpoint first into an empty tree yields
      exactly the median build. */
  lemma MidpointInsertionsBuildBalanced(ordKeys: seq<int>)
    requires StrictlySorted(ordKeys)
    ensures MidpointInsertions(Empty, ordKeys, 0, |ordKeys| - 1) == Balanced(ordKeys)
  {
    MidpointInsertionsReplayPreOrder(Empty, ordKeys, 0, |ordKeys| - 1);
    BalancedIsSearchTree(ordKeys);
    ReplayPreOrder(Balanced(ordKeys));
  }

  lemma HasElement(s: set<int>)
    requires |s| > 0
    ensures exists x :: x in s
  {
    if forall x :: x !in s {
      assert false;
    }
  }

  class BinarySearchTree {
    var root: Tree
    var index: set<int>

    ghost predicate Valid()
      reads this
    {
      IsBST(root) && index == Keys(root)
    }

    /** An empty tree. */
    constructor ()
      ensures Valid() && root == Empty && index == {}
    {
      root := Empty;
      index := {};
    }

    /** A tree whose root holds `item`. */
    constructor Singleton(item: int)
      ensures Valid() && root == Leaf(item) && index == {item}
    {
      root := Leaf(item);
      index := {item};
    }

    /** A tree loaded from an array: the first element becomes the root and
        the others are added in order. */
    constructor FromArray(itemsArray: array<int>)
      requires itemsArray.Length > 0
      ensures Valid() && root == AddAll(Empty, itemsArray[..])
    {
      root := Empty;
      index := {};
      new;
      var _ := AddAllFromArray(itemsArray);
    }

    /** Counts the keys of the index. */
    method Size() returns (n: nat)
      requires Valid()
      ensures n == |Keys(root)| == NodeCount(root) == |InOrder(root)|
    {
      n := 0;
      var rest := index;
      while |rest| > 0
        invariant rest <= index
        invariant n + |rest| == |index|
        decreases |rest|
      {
        HasElement(rest);
        var element :| element in rest;
        rest := rest - {element};
        n := n + 1;
      }
      KeyCountIsNodeCount(root);
      TraversalLengths(root);
    }

    method IsEmpty() returns (b: bool)
      requires Valid()
      ensures b <==> root == Empty
      ensures b <==> index == {}
    {
      assert root.Node? ==> root.key in Keys(root);
      b := root.Empty?;
    }

    /** Membership through the index. */
    method Contains(k: int) returns (b: bool)
      requires Valid()
      ensures b <==> k in Keys(root)
      ensures b <==> k in InOrder(root)
    {
      TraversalKeys(root);
      b := k in index;
    }

    /** The node holding `k`, found by walking down from the root, or the
        empty node when `k` is absent. */
    method GetNode(k: int) returns (n: Tree)
      requires Valid()
      ensures n == Find(root, k)
      ensures n.Node? <==> k in Keys(root)
      ensures n.Node? ==> n.key == k && IsSubtree(n, root)
    {
      if k !in index {
        return Empty;
      }
      var difference := 1;
      var a := root;
      while difference != 0
        invariant IsBST(a) && k in Keys(a) && Find(a, k) == Find(root, k)
        invariant difference == 0 ==> a.key == k
        decreases NodeCount(a) + (if difference == 0 then 0 else 1)
      {
        difference := Compare(k, a.key);
        if difference < 0 {
          a := a.left;
        } else if difference > 0 {
          a := a.right;
        }
      }
      n := a;
    }

    /** The depth of `k`: the number of nodes compared on the walk to it,
        or -1 when `k` is absent. */
    method GetNodeDepth(k: int) returns (d: int)
      requires Valid()
      ensures k !in Keys(root) ==> d == -1
      ensures k in Keys(root) ==> d == |SearchPath(root, k)| && 1 <= d <= Height(root)
    {
      if k !in index {
        return -1;
      }
      var nodeHeight := 0;
      var difference := 1;
      var a := root;
      while difference != 0
        invariant IsBST(a) && k in Keys(a)
        invariant difference != 0 ==> nodeHeight + |SearchPath(a, k)| == |SearchPath(root, k)|
        invariant difference == 0 ==> nodeHeight == |SearchPath(root, k)|
        decreases NodeCount(a) + (if difference == 0 then 0 else 1)
      {
        difference := Compare(k, a.key);
        if difference < 0 {
          a := a.left;
        } else if difference > 0 {
          a := a.right;
        }
        nodeHeight := nodeHeight + 1;
      }
      d := nodeHeight;
    }

    /** The depth of the node `n` of this tree, by its key. */
    method GetNodeDepthOfNode(n: Tree) returns (d: int)
      requires Valid()
      ensures n.Node? && n.key in Keys(root) ==> d == |SearchPath(root, n.key)| && 1 <= d <= Height(root)
      ensures n.Empty? || n.key !in Keys(root) ==> d == -1
    {
      if n.Empty? {
        return -1;
      }
      d := GetNodeDepth(n.key);
    }

    /** The parent of the node `n` of this tree: the node one of whose
        children holds `n`'s key; the empty node when `n` is the root, is
        empty, or is absent. */
    method GetParentNode(n: Tree) returns (p: Tree)
      requires Valid()
      ensures n.Node? ==> p == Parent(root, n.key)
      ensures p.Node? <==> n.Node? && n.key in Keys(root) && !HasKey(root, n.key)
      ensures p.Node? ==> IsSubtree(p, root) && (HasKey(p.left, n.key) || HasKey(p.right, n.key))
    {
      if n.Empty? || root.Empty? || root.key == n.key {
        return Empty;
      }
      var k := n.key;
      var a := root;
      while a.Node? && !(HasKey(a.left, k) || HasKey(a.right, k))
        invariant Parent(a, k) == Parent(root, k)
        invariant a.Node? ==> a.key != k
        decreases NodeCount(a)
      {
        var difference := Compare(k, a.key);
        if difference > 0 {
          a := a.right;
        } else {
          a := a.left;
        }
      }
      p := a;
    }

    /** Height of the tree in nodes. */
    method GetHeight() returns (h: nat)
      requires Valid()
      ensures h == Height(root)
      ensures h <= NodeCount(root) < Pow2(h)
    {
      HeightBounds(root);
      if root.Empty? {
        return 0;
      }
      h := RecurCheckDepth(root, 1);
    }

    /** Adds `k`, reporting whether it was new. */
    method Add(k: int) returns (added: bool)
      requires Valid()
      modifies this
      ensures Valid()
      ensures added <==> k !in old(index)
      ensures root == AddKey(old(root), k)
      ensures index == old(index) + {k}
      ensures added ==> Delete(root, k) == old(root)
    {
      if k !in index && root.Node? {
        root := CheckAndPlace(root, k);
        index := index + {k};
        added := true;
      } else if root.Empty? {
        root := Leaf(k);
        index := index + {k};
        added := true;
      } else {
        added := false;
      }
      if added {
        DeleteUndoesAdd(old(root), k);
      }
    }

    /** Adds the elements of an array in order; a tree with an empty root
        takes the first element as its root; `false` when there is no
        element for an empty root, where the source throws. */
    method AddAllFromArray(keyArray: array<int>) returns (ok: bool)
      requires Valid()
      modifies this
      ensures Valid()
      ensures ok <==> old(root).Node? || keyArray.Length > 0
      ensures ok ==> root == AddAll(old(root), keyArray[..])
      ensures !ok ==> root == old(root) && index == old(index)
    {
      var i := 0;
      if root.Empty? && keyArray.Length == 0 {
        return false;
      }
      ok := true;
      if root.Empty? {
        root := Leaf(keyArray[0]);
        index := index + {keyArray[0]};
        i := i + 1;
        assert keyArray[..1][..0] == [];
      }
      while i < keyArray.Length
        invariant 0 <= i <= keyArray.Length
        invariant Valid()
        invariant root == AddAll(old(root), keyArray[..i])
      {
        var _ := Add(keyArray[i]);
        assert keyArray[..i + 1][..i] == keyArray[..i];
        i := i + 1;
      }
      assert keyArray[..keyArray.Length] == keyArray[..];
    }

    /** Adds the elements of a list in order; a tree with an empty root
        takes the first element as its root; `false` when there is no
        element for an empty root, where the source throws. */
    method AddAllFromList(myList: seq<int>) returns (ok: bool)
      requires Valid()
      modifies this
      ensures Valid()
      ensures ok <==> old(root).Node? || |myList| > 0
      ensures ok ==> root == AddAll(old(root), myList)
      ensures !ok ==> root == old(root) && index == old(index)
    {
      var i := 0;
      if root.Empty? && |myList| == 0 {
        return false;
      }
      ok := true;
      if root.Empty? {
        root := Leaf(myList[0]);
        index := index + {myList[0]};
        i := i + 1;
        assert myList[..1][..0] == [];
      }
      while i < |myList|
        invariant 0 <= i <= |myList|
        invariant Valid()
        invariant root == AddAll(old(root), myList[..i])
      {
        var _ := Add(myList[i]);
        assert myList[..i + 1][..i] == myList[..i];
        i := i + 1;
      }
      assert myList[..|myList|] == myList;
    }

    /** Removes the node holding `value`, reporting whether there was one. */
    method Remove(value: int) returns (removed: bool)
      requires Valid()
      modifies this
      ensures Valid()
      ensures removed <==> value in old(index)
      ensures root == Delete(old(root), value)
      ensures index == old(index) - {value}
    {
      var node := GetNode(value);
      var key := RemoveNode(node);
      removed := key.Some?;
    }

    /** Removes the node `myNode` of this tree and returns its key, or
        `None` when no node with that key is present. */
    method RemoveNode(myNode: Tree) returns (removedKey: Option<int>)
      requires Valid()
      modifies this
      ensures Valid()
      ensures myNode.Empty? || myNode.key !in old(index) ==>
        removedKey == None && root == old(root) && index == old(index)
      ensures myNode.Node? && myNode.key in old(index) ==>
        && removedKey == Some(myNode.key)
        && root == Delete(old(root), myNode.key)
        && index == old(index) - {myNode.key}
    {
      if myNode.Empty? || myNode.key !in index {
        return None;
      }
      var nodeKey := myNode.key;
      root := Delete(root, nodeKey);
      index := index - {nodeKey};
      removedKey := Some(nodeKey);
    }

    method AsListPreOrder() returns (preOrdList: seq<int>)
      requires Valid()
      ensures preOrdList == PreOrder(root)
      ensures multiset(preOrdList) == multiset(InOrder(root))
    {
      preOrdList := RecurPreOrder(root, []);
      assert preOrdList == PreOrder(root) by {
        assert [] + PreOrder(root) == PreOrder(root);
      }
      TraversalsArePermutations(root);
    }

    /** The keys in ascending order. */
    method AsListInOrder() returns (inOrdList: seq<int>)
      requires Valid()
      ensures inOrdList == InOrder(root)
      ensures StrictlySorted(inOrdList)
      ensures forall k :: k in inOrdList <==> k in index
    {
      inOrdList := RecurInOrder(root, []);
      assert inOrdList == InOrder(root) by {
        assert [] + InOrder(root) == InOrder(root);
      }
      assert StrictlySorted(inOrdList) by {
        BstIffSortedInOrder(root);
      }
      assert forall k :: k in inOrdList <==> k in Keys(root) by {
        TraversalKeys(root);
      }
    }

    method AsListPostOrder() returns (postOrdList: seq<int>)
      requires Valid()
      ensures postOrdList == PostOrder(root)
      ensures multiset(postOrdList) == multiset(InOrder(root))
    {
      postOrdList := RecurPostOrder(root, []);
      assert postOrdList == PostOrder(root) by {
        assert [] + PostOrder(root) == PostOrder(root);
      }
      TraversalsArePermutations(root);
    }

    /** Adds the keys `ordKeys[left..right]` (both ends included), the one
        at the midpoint first, then each side the same way. */
    method RecurAdd(ordKeys: seq<int>, left: int, right: int)
      requires Valid()
      requires 0 <= left <= right < |ordKeys|
      modifies this
      ensures Valid()
      ensures root == MidpointInsertions(old(root), ordKeys, left, right)
      decreases right - left
    {
      var mid := (left + right) / 2;
      var _ := Add(ordKeys[mid]);
      if left < right {
        if left <= mid - 1 {
          RecurAdd(ordKeys, left, mid - 1);
        }
        RecurAdd(ordKeys, mid + 1, right);
      }
    }

    /** Loads ascending keys into the emptied tree, midpoint first. */
    method ReloadSorted(ordKeys: seq<int>)
      requires Valid() && root == Empty
      requires StrictlySorted(ordKeys) && |ordKeys| > 0
      modifies this
      ensures Valid() && root == Balanced(ordKeys)
    {
      RecurAdd(ordKeys, 0, |ordKeys| - 1);
      MidpointInsertionsBuildBalanced(ordKeys);
    }

    /** Rebuilds the tree from its sorted keys into a tree of least height. */
    method RedrawBalanced()
      requires Valid()
      modifies this
      ensures Valid()
      ensures root == Balanced(InOrder(old(root)))
      ensures index == old(index)
      ensures InOrder(root) == InOrder(old(root))
      ensures Height(root) == Bits(|index|) <= Height(old(root))
    {
      ghost var t := root;
      var ordKeys := AsListInOrder();
      assert ordKeys == InOrder(t);
      ghost var b := Balanced(ordKeys);
      assert IsBST(b) && InOrder(b) == ordKeys && Keys(b) == Keys(t) by {
        RebalanceKeepsContent(t);
      }
      assert Height(b) == Bits(|Keys(t)|) <= Height(t) by {
        RebalanceHeight(t);
      }
      root := Empty;
      index := {};
      if |ordKeys| > 0 {
        ReloadSorted(ordKeys);
      } else {
        assert b == Build(ordKeys, 0, -1) == Empty;
      }
      assert root == b;
      assert InOrder(root) == InOrder(t);
      assert index == Keys(t);
    }
  }
}
