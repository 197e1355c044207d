/**
 * Insertion by comparison walk, and loading a tree from a sequence of keys.
 */
module Insertion {
  import opened Trees
  import opened Lookup

  /** The source's placement walk from a non-empty node: a greater key goes
      right, any other key goes left, and the new leaf fills the first
      empty slot reached. */
  function CheckAndPlace(t: Tree, k: int): (r: Tree)
    requires t.Node?
    ensures r.Node? && r.key == t.key
    ensures Keys(r) == Keys(t) + {k}
    ensures NodeCount(r) == NodeCount(t) + 1
    ensures IsBST(t) && k !in Keys(t) ==> IsBST(r)
  {
    if k > t.key then
      if t.right.Empty? then Node(t.left, t.key, Leaf(k))
      else Node(t.left, t.key, CheckAndPlace(t.right, k))
    else
      if t.left.Empty? then Node(Leaf(k), t.key, t.right)
      else Node(CheckAndPlace(t.left, k), t.key, t.right)
  }

  /** The tree after `add(k)`: an empty tree gets `k` as its root, a present
      key changes nothing, any other key is placed as a new leaf. */
  function AddKey(t: Tree, k: int): (r: Tree)
    ensures Keys(r) == Keys(t) + {k}
    ensures IsBST(t) ==> IsBST(r)
    ensures k in Keys(t) ==> r == t
    ensures k !in Keys(t) ==> NodeCount(r) == NodeCount(t) + 1
  {
    if t.Empty? then Leaf(k)
    else if k in Keys(t) then t
    else CheckAndPlace(t, k)
  }

  /** The placement walk ends in a new leaf holding the key, where a search
      for that key arrives. */
  lemma {:induction false} CheckAndPlaceMakesLeaf(t: Tree, k: int)
    requires t.Node? && k !in Keys(t)
    ensures Find(CheckAndPlace(t, k), k) == Leaf(k)
  {
    if k > t.key {
      if t.right.Node? { CheckAndPlaceMakesLeaf(t.right, k); }
    } else {
      if t.left.Node? { CheckAndPlaceMakesLeaf(t.left, k); }
    }
  }

  /** A fresh key becomes a leaf, found by the search for it. */
  lemma AddKeyMakesLeaf(t: Tree, k: int)
    requires k !in Keys(t)
    ensures Find(AddKey(t, k), k) == Leaf(k)
  {
    if t.Node? { CheckAndPlaceMakesLeaf(t, k); }
  }

  /** The tree after adding the keys of `ks` one after another. */
  function AddAll(t: Tree, ks: seq<int>): (r: Tree)
    ensures IsBST(t) ==> IsBST(r)
    decreases |ks|
  {
    if ks == [] then t
    else AddKey(AddAll(t, ks[..|ks| - 1]), ks[|ks| - 1])
  }

  /** After adding a sequence, a key is present exactly when it was present
      before or occurs in the sequence. */
  lemma {:induction false} AddAllKeys(t: Tree, ks: seq<int>)
    ensures forall k :: k in Keys(AddAll(t, ks)) <==> k in Keys(t) || k in ks
    decreases |ks|
  {
    if ks != [] {
      var ks' := ks[..|ks| - 1];
      AddAllKeys(t, ks');
      assert ks == ks' + [ks[|ks| - 1]];
    }
  }

  lemma {:induction false} AddAllAppend(t: Tree, a: seq<int>, b: seq<int>)
    ensures AddAll(t, a + b) == AddAll(AddAll(t, a), b)
    decreases |b|
  {
    if b == [] {
      assert a + b == a;
    } else {
      var b' := b[..|b| - 1];
      assert (a + b)[..|a + b| - 1] == a + b';
      assert (a + b)[|a + b| - 1] == b[|b| - 1];
      AddAllAppend(t, a, b');
    }
  }

  /** Keys smaller than the root all travel into its left subtree. */
  lemma {:induction false} AddAllGoesLeft(a: Tree, x: int, b: Tree, ks: seq<int>)
    requires forall y :: y in Keys(b) ==> x < y
    requires forall k :: k in ks ==> k < x
    ensures AddAll(Node(a, x, b), ks) == Node(AddAll(a, ks), x, b)
    decreases |ks|
  {
    if ks != [] {
      var ks' := ks[..|ks| - 1];
      var k := ks[|ks| - 1];
      assert k in ks;
      forall j | j in ks' ensures j < x { assert j in ks; }
      AddAllGoesLeft(a, x, b, ks');
      var c := AddAll(a, ks');
      assert k !in Keys(b) && k != x;
      if k in Keys(c) {
      } else {
        assert !(k > x);
      }
    }
  }

  /** Keys greater than the root all travel into its right subtree. */
  lemma {:induction false} AddAllGoesRight(a: Tree, x: int, b: Tree, ks: seq<int>)
    requires forall y :: y in Keys(a) ==> y < x
    requires forall k :: k in ks ==> x < k
    ensures AddAll(Node(a, x, b), ks) == Node(a, x, AddAll(b, ks))
    decreases |ks|
  {
    if ks != [] {
      var ks' := ks[..|ks| - 1];
      var k := ks[|ks| - 1];
      assert k in ks;
      forall j | j in ks' ensures x < j { assert j in ks; }
      AddAllGoesRight(a, x, b, ks');
      var c := AddAll(b, ks');
      assert k !in Keys(a) && k != x;
    }
  }

  /** Adding the keys of a search tree in pre-order to an empty tree
      rebuilds exactly that tree. */
  lemma {:induction false} ReplayPreOrder(u: Tree)
    requires IsBST(u)
    ensures AddAll(Empty, PreOrder(u)) == u
  {
    match u
    case Empty =>
    case Node(l, x, r) =>
      TraversalKeys(l);
      TraversalKeys(r);
      assert PreOrder(u) == ([x] + PreOrder(l)) + PreOrder(r);
      AddAllAppend(Empty, [x] + PreOrder(l), PreOrder(r));
      AddAllAppend(Empty, [x], PreOrder(l));
      assert [x][..0] == [];
      assert AddAll(Empty, [x]) == Leaf(x);
      AddAllGoesLeft(Empty, x, Empty, PreOrder(l));
      ReplayPreOrder(l);
      AddAllGoesRight(l, x, Empty, PreOrder(r));
      ReplayPreOrder(r);
  }

  /** The degenerate chain: every node has only a right child. */
  function RightSpine(s: seq<int>): (t: Tree)
    ensures Height(t) == |s|
  {
    if s == [] then Empty else Node(Empty, s[0], RightSpine(s[1..]))
  }

  lemma {:induction false} RightSpineKeys(s: seq<int>)
    ensures forall k :: k in Keys(RightSpine(s)) <==> k in s
    decreases |s|
  {
    if s != [] {
      RightSpineKeys(s[1..]);
      assert s == [s[0]] + s[1..];
    }
  }

  lemma {:induction false} SpineGrows(s: seq<int>, x: int)
    requires forall y :: y in s ==> y < x
    ensures AddKey(RightSpine(s), x) == RightSpine(s + [x])
  {
    if s == [] {
      assert [x][1..] == [];
    } else {
      assert (s + [x])[1..] == s[1..] + [x];
      RightSpineKeys(s);
      RightSpineKeys(s[1..]);
      assert x !in Keys(RightSpine(s));
      forall y | y in s[1..] ensures y < x { assert y in s; }
      SpineGrows(s[1..], x);
      assert s[0] in s;
      if s[1..] == [] {
        assert [x][1..] == [];
      } else {
        assert x !in Keys(RightSpine(s[1..]));
      }
    }
  }

  /** Adding a strictly increasing run of n keys to an empty tree makes a
      chain of height n. */
  lemma {:induction false} IncreasingRunHeight(s: seq<int>)
    requires StrictlySorted(s)
    ensures AddAll(Empty, s) == RightSpine(s)
    ensures Height(AddAll(Empty, s)) == |s|
    decreases |s|
  {
    if s != [] {
      var s' := s[..|s| - 1];
      var x := s[|s| - 1];
      assert StrictlySorted(s') by {
        forall i, j | 0 <= i < j < |s'| ensures s'[i] < s'[j] {
          assert s'[i] == s[i] && s'[j] == s[j];
        }
      }
      assert AddAll(Empty, s') == RightSpine(s') by {
        IncreasingRunHeight(s');
      }
      assert forall y :: y in s' ==> y < x by {
        forall y | y in s' ensures y < x {
          var i :| 0 <= i < |s'| && s'[i] == y;
          assert s[i] == y;
        }
      }
      assert AddAll(Empty, s) == AddKey(AddAll(Empty, s'), x);
      assert AddKey(RightSpine(s'), x) == RightSpine(s' + [x]) by {
        SpineGrows(s', x);
      }
      assert s' + [x] == s;
    }
  }
}
