/**
 * Rebuilding from the sorted keys by median selection, and why the result
 * has the least height a tree of that many nodes can have.
 */
module Rebalance {
  import opened Trees

  /** The tree built from `s[left..right]` (both ends included) by putting
      the element at the midpoint `(left + right) / 2` at the root and building
      the two sides the same way. */
  function Build(s: seq<int>, left: int, right: int): Tree
    requires 0 <= left <= right + 1 <= |s|
    decreases right - left + 1
  {
    if left > right then Empty
    else
      var mid := (left + right) / 2;
      Node(Build(s, left, mid - 1), s[mid], Build(s, mid + 1, right))
  }

  /** The median build of the whole of `s`: its root is the lower median. */
  function Balanced(s: seq<int>): Tree {
    Build(s, 0, |s| - 1)
  }

  /** The number of binary digits of n, which is ceil(log2(n + 1)). */
  function Bits(n: nat): nat {
    if n == 0 then 0 else 1 + Bits(n / 2)
  }

  lemma SliceAround(s: seq<int>, i: int, j: int, k: int)
    requires 0 <= i <= j < k <= |s|
    ensures s[i..k] == s[i..j] + [s[j]] + s[j + 1..k]
  {
  }

  /** The midpoint leaves (n - 1) / 2 elements of a range of n on its left
      and n / 2 on its right. */
  lemma Halves(left: int, right: int)
    requires 0 <= left <= right
    ensures var mid := (left + right) / 2;
      mid - left == (right - left) / 2 && right - mid == (right - left + 1) / 2
  {
  }

  /** The median build keeps the keys in their order. */
  lemma {:induction false} BuildInOrder(s: seq<int>, left: int, right: int)
    requires 0 <= left <= right + 1 <= |s|
    ensures InOrder(Build(s, left, right)) == s[left..right + 1]
    decreases right - left + 1
  {
    if left <= right {
      var mid := (left + right) / 2;
      var lo, hi := Build(s, left, mid - 1), Build(s, mid + 1, right);
      assert Build(s, left, right) == Node(lo, s[mid], hi);
      assert InOrder(lo) == s[left..mid] by {
        BuildInOrder(s, left, mid - 1);
      }
      assert InOrder(hi) == s[mid + 1..right + 1] by {
        BuildInOrder(s, mid + 1, right);
      }
      SliceAround(s, left, mid, right + 1);
    } else {
      assert s[left..right + 1] == [];
    }
  }

  lemma BalancedInOrder(s: seq<int>)
    ensures InOrder(Balanced(s)) == s
  {
    BuildInOrder(s, 0, |s| - 1);
  }

  /** Built from strictly ascending keys, it is a search tree holding exactly them. */
  lemma BalancedIsSearchTree(s: seq<int>)
    requires StrictlySorted(s)
    ensures IsBST(Balanced(s)) && InOrder(Balanced(s)) == s
    ensures forall k :: k in Keys(Balanced(s)) <==> k in s
  {
    BalancedInOrder(s);
    BstIffSortedInOrder(Balanced(s));
    TraversalKeys(Balanced(s));
  }

  lemma {:induction false} BitsMonotone(a: nat, b: nat)
    requires a <= b
    ensures Bits(a) <= Bits(b)
    decreases b
  {
    if a > 0 { BitsMonotone(a / 2, b / 2); }
  }

  /** Bits(n) is the h with 2^(h-1) <= n < 2^h. */
  lemma {:induction false} BitsIsCeilLog2(n: nat)
    ensures n < Pow2(Bits(n))
    ensures n > 0 ==> Pow2(Bits(n) - 1) <= n
  {
    if n > 0 { BitsIsCeilLog2(n / 2); }
  }

  /** Fewer than 2^h nodes need no more than h levels. */
  lemma {:induction false} BitsBelow(n: nat, h: nat)
    requires n < Pow2(h)
    ensures Bits(n) <= h
  {
    if n > 0 { BitsBelow(n / 2, h - 1); }
  }

  /** The median build of n keys has height ceil(log2(n + 1)). */
  lemma {:induction false} BuildHeight(s: seq<int>, left: int, right: int)
    requires 0 <= left <= right + 1 <= |s|
    ensures Height(Build(s, left, right)) == Bits(right - left + 1)
    decreases right - left + 1
  {
    if left <= right {
      var n := right - left + 1;
      var mid := (left + right) / 2;
      var lo, hi := Build(s, left, mid - 1), Build(s, mid + 1, right);
      assert Build(s, left, right) == Node(lo, s[mid], hi);
      Halves(left, right);
      assert Height(lo) == Bits((n - 1) / 2) by {
        BuildHeight(s, left, mid - 1);
      }
      assert Height(hi) == Bits(n / 2) by {
        BuildHeight(s, mid + 1, right);
      }
      BitsMonotone((n - 1) / 2, n / 2);
      assert Bits(n) == 1 + Bits(n / 2);
    }
  }

  lemma BalancedHeight(s: seq<int>)
    ensures Height(Balanced(s)) == Bits(|s|)
  {
    BuildHeight(s, 0, |s| - 1);
  }

  /** No tree with the same number of nodes is lower. */
  lemma MinimalHeight(t: Tree)
    ensures Bits(NodeCount(t)) <= Height(t)
  {
    HeightBounds(t);
    BitsBelow(NodeCount(t), Height(t));
  }

  /** Rebuilding a search tree keeps its keys and their order. */
  lemma RebalanceKeepsContent(t: Tree)
    requires IsBST(t)
    ensures IsBST(Balanced(InOrder(t)))
    ensures InOrder(Balanced(InOrder(t))) == InOrder(t)
    ensures Keys(Balanced(InOrder(t))) == Keys(t)
  {
    var s := InOrder(t);
    var b := Balanced(s);
    BstIffSortedInOrder(t);
    BalancedIsSearchTree(s);
    TraversalKeys(t);
    var kb, kt := Keys(b), Keys(t);
    assert forall k :: k in kb <==> k in kt;
    assert kb == kt;
  }

  /** Rebuilding gives height ceil(log2(n + 1)) for n keys, never more than before. */
  lemma RebalanceHeight(t: Tree)
    requires IsBST(t)
    ensures Height(Balanced(InOrder(t))) == Bits(|Keys(t)|) <= Height(t)
  {
    var s := InOrder(t);
    TraversalLengths(t);
    KeyCountIsNodeCount(t);
    BalancedHeight(s);
    MinimalHeight(t);
  }

  /** Rebuilding a second time changes nothing. */
  lemma RebalanceIdempotent(t: Tree)
    ensures Balanced(InOrder(Balanced(InOrder(t)))) == Balanced(InOrder(t))
  {
    BalancedInOrder(InOrder(t));
  }

  /** Forty-four distinct keys rebuild to height six. */
  lemma FortyFourKeysGiveHeightSix(s: seq<int>)
    requires |s| == 44
    ensures Height(Balanced(s)) == 6
  {
    BalancedHeight(s);
    assert Bits(44) == 1 + Bits(22) == 2 + Bits(11) == 3 + Bits(5) == 4 + Bits(2) == 5 + Bits(1) == 6;
  }
}
