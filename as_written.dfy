/**
 * The removal and the parent walk exactly as the Java class performs them,
 * over node objects whose key may be null and whose pointers may be null,
 * so that the places where that code departs from its documented contract
 * can be exhibited. The rest of the model uses the corrected definitions
 * of the Deletion and Lookup modules.
 */
module AsWritten {
  import opened Trees
  import opened Lookup
  import opened Deletion

  /** A node reference as the Java code sees it: `null`, or a node whose key may be null. */
  datatype Obj = Null | Obj(left: Obj, key: Option<int>, right: Obj)

  /** The outcome of a call that may end in a NullPointerException. */
  datatype Run<T> = Throws | Returns(value: T)

  /** The fields of the tree object that removal touches. */
  datatype State = State(root: Obj, index: set<int>)

  /** The directions from the root to a node: `false` goes left, `true` right. */
  type Path = seq<bool>

  /** The shared empty node (a node with a null key and no children). */
  const EmptyNode: Obj := Obj(Null, None, Null)

  /** The node objects of a tree of non-null keys. */
  function FromTree(t: Tree): Obj {
    match t
    case Empty => Null
    case Node(l, x, r) => Obj(FromTree(l), Some(x), FromTree(r))
  }

  /** The root object: a tree without keys has a root with a null key. */
  function RootObj(t: Tree): Obj {
    if t.Empty? then EmptyNode else FromTree(t)
  }

  /** The node reached by following `p`. */
  function At(a: Obj, p: Path): Obj {
    if |p| == 0 then a
    else match a
      case Null => Null
      case Obj(l, _, r) => if p[0] then At(r, p[1..]) else At(l, p[1..])
  }

  /** Replaces the node at `p` by `b`. */
  function Put(a: Obj, p: Path, b: Obj): Obj {
    if |p| == 0 then b
    else match a
      case Null => Null
      case Obj(l, x, r) => if p[0] then Obj(l, x, Put(r, p[1..], b)) else Obj(Put(l, p[1..], b), x, r)
  }

  /** Overwrites the key field of the node at `p`. */
  function SetKey(a: Obj, p: Path, k: Option<int>): Obj {
    match At(a, p)
    case Null => a
    case Obj(l, _, r) => Put(a, p, Obj(l, k, r))
  }

  /** Overwrites the right (`right` true) or the left pointer of the node at `p`. */
  function SetChild(a: Obj, p: Path, right: bool, c: Obj): Obj {
    match At(a, p)
    case Null => a
    case Obj(l, x, r) => Put(a, p, if right then Obj(l, x, c) else Obj(c, x, r))
  }

  function Prepend(d: bool, w: Run<Path>): (r: Run<Path>)
    ensures r.Returns? <==> w.Returns?
  {
    if w.Throws? then Throws else Returns([d] + w.value)
  }

  /** True when `c` is a node holding `k`. */
  predicate Holds(c: Obj, k: int) {
    c.Obj? && c.key == Some(k)
  }

  /** The walk of `getNode`: compare, go left or right, stop on an equal key;
      comparing with a null key or stepping onto a null pointer throws. */
  function NodeWalk(a: Obj, k: int): (r: Run<Path>)
    ensures r.Returns? ==> Holds(At(a, r.value), k)
  {
    match a
    case Null => Throws
    case Obj(l, x, rt) =>
      if x.None? then Throws
      else if k < x.value then Prepend(false, NodeWalk(l, k))
      else if k > x.value then Prepend(true, NodeWalk(rt, k))
      else Returns([])
  }

  /** The loop of `iterGetParent`: stop at a node having a child that holds
      `k`, otherwise go right when `k` is greater and left when not. */
  function ParentWalk(a: Obj, k: int): (r: Run<Path>)
    ensures r.Returns? ==> At(a, r.value).Obj? && (Holds(At(a, r.value).left, k) || Holds(At(a, r.value).right, k))
  {
    match a
    case Null => Throws
    case Obj(l, x, rt) =>
      if Holds(l, k) || Holds(rt, k) then Returns([])
      else if x.None? then Throws
      else if k > x.value then Prepend(true, ParentWalk(rt, k))
      else Prepend(false, ParentWalk(l, k))
  }

  /** `iterGetParent(myNode, root)` for a node whose key is `target`: the
      path to the parent, or `None` for the shared empty node, which it
      returns when the target is the root's key or is null. */
  function IterGetParent(target: Option<int>, root: Obj): (r: Run<Option<Path>>)
    ensures r.Returns? && r.value.Some? ==> target.Some? && At(root, r.value.value).Obj?
  {
    if root.Null? || root.key.None? then Throws
    else if root.key == target || target.None? then Returns(None)
    else match ParentWalk(root, target.value)
      case Throws => Throws
      case Returns(p) => Returns(Some(p))
  }

  /** The path from `a` to its leftmost node. */
  function LeftmostPath(a: Obj): Path {
    if a.Obj? && a.left.Obj? then [false] + LeftmostPath(a.left) else []
  }

  /** The node that the successor loop stops at, starting from `a`. */
  function Leftmost(a: Obj): (m: Obj)
    requires a.Obj?
    ensures m.Obj? && m.left.Null? && m == At(a, LeftmostPath(a))
  {
    if a.left.Obj? then Leftmost(a.left) else a
  }

  /** `remove(value)` as written: look the node up, find its parent, then
      unlink a leaf, splice a sole child, or, for two children, copy the
      successor's key up, empty the successor's node in place and clear the
      left pointer of the parent of the node now holding that key. The
      result is the new state and whether something was removed. */
  function Remove(s: State, value: int): (r: Run<(State, bool)>)
    ensures value !in s.index ==> r.Returns? && r.value.0 == s && !r.value.1
    ensures value in s.index && NodeWalk(s.root, value).Throws? ==> r.Throws?
    ensures value in s.index && s.root.Obj? && s.root.key == Some(value) ==> r.Throws?
    ensures r.Returns? ==> r.value.0.index == s.index - {value} && (r.value.1 <==> value in s.index)
  {
    if value !in s.index then Returns((s, false))
    else match NodeWalk(s.root, value)
      case Throws => Throws
      case Returns(np) =>
        var myNode := At(s.root, np);
        match IterGetParent(Some(value), s.root)
        case Throws => Throws
        case Returns(pp) =>
          if pp.None? then Throws
          else
            var parent := At(s.root, pp.value);
            if parent.key.None? then Throws
            else
              var leftOfParent := value < parent.key.value;
              var index := s.index - {value};
              if myNode.left.Null? && myNode.right.Null? then
                var root := SetChild(SetKey(s.root, np, None), pp.value, !leftOfParent, Null);
                Returns((State(root, index), true))
              else if myNode.left.Null? then
                Returns((State(SetChild(s.root, pp.value, !leftOfParent, myNode.right), index), true))
              else if myNode.right.Null? then
                Returns((State(SetChild(s.root, pp.value, !leftOfParent, myNode.left), index), true))
              else
                var tp := np + [true] + LeftmostPath(myNode.right);
                var succ := Leftmost(myNode.right).key;
                var root := Put(SetKey(s.root, np, succ), tp, EmptyNode);
                match IterGetParent(succ, root)
                case Throws => Throws
                case Returns(q) =>
                  if q.None? then Returns((State(root, index), true))
                  else Returns((State(SetChild(root, q.value, false, Null), index), true))
  }

  /** The non-null keys reachable from `a`. */
  function ObjKeys(a: Obj): set<int> {
    match a
    case Null => {}
    case Obj(l, x, r) => ObjKeys(l) + (if x.Some? then {x.value} else {}) + ObjKeys(r)
  }

  /** What `recurInOrder` lists: a child is visited only when its key is not null. */
  function ObjInOrder(a: Obj): (r: seq<Option<int>>)
    ensures a.Obj? ==> a.key in r
    ensures None in r ==> a.Obj? && a.key.None?
    ensures forall x :: x in r && x.Some? ==> x.value in ObjKeys(a)
  {
    match a
    case Null => []
    case Obj(l, x, r) =>
      (if l.Obj? && l.key.Some? then ObjInOrder(l) else [])
      + [x]
      + (if r.Obj? && r.key.Some? then ObjInOrder(r) else [])
  }

  /** The keys of `s`, each as a non-null key. */
  function Lift(s: seq<int>): seq<Option<int>> {
    if |s| == 0 then [] else [Some(s[0])] + Lift(s[1..])
  }

  lemma {:induction false} LiftAppend(a: seq<int>, b: seq<int>)
    ensures Lift(a + b) == Lift(a) + Lift(b)
  {
    if |a| == 0 {
      assert a + b == b;
    } else {
      assert (a + b)[0] == a[0];
      assert (a + b)[1..] == a[1..] + b;
      LiftAppend(a[1..], b);
    }
  }

  /** On the node objects of a tree of non-null keys, the written in-order
      walk lists exactly the keys of the in-order listing, in that order. */
  lemma {:induction false} ObjInOrderOfTree(t: Tree)
    requires t.Node?
    ensures ObjInOrder(FromTree(t)) == Lift(InOrder(t))
  {
    var l, x, r := t.left, t.key, t.right;
    var ls := if l.Node? then ObjInOrder(FromTree(l)) else [];
    var rs := if r.Node? then ObjInOrder(FromTree(r)) else [];
    if l.Node? { ObjInOrderOfTree(l); }
    if r.Node? { ObjInOrderOfTree(r); }
    assert ObjInOrder(FromTree(t)) == ls + [Some(x)] + rs;
    assert Lift([x]) == [Some(x)];
    LiftAppend(InOrder(l), [x]);
    LiftAppend(InOrder(l) + [x], InOrder(r));
  }

  /** Removing the key at the root always throws: the parent found for the
      root is the shared empty node, and its null key is then compared. */
  lemma RootRemovalThrows(t: Tree)
    requires t.Node?
    ensures Remove(State(FromTree(t), Keys(t)), t.key) == Throws
  {
  }

  /** The tree 50(30, 70(60, 80)) of the example below. */
  function Sample(): Tree {
    Node(Leaf(30), 50, Node(Leaf(60), 70, Leaf(80)))
  }

  /** What the written removal of 70 leaves of it: 50(null, 80(60, a node
      with a null key)). */
  function SampleAfterRemoval(): Obj {
    Obj(Null, Some(50), Obj(Obj(Null, Some(60), Null), Some(80), EmptyNode))
  }

  /** Removing 70, which has two children, from 50(30, 70(60, 80)): the
      node of 70 takes the key 80, the node of 80 stays behind with a null
      key, and clearing the left pointer of the parent of the node now
      holding 80 cuts 30 off. */
  lemma TwoChildRemovalLosesKeys()
    ensures Remove(State(FromTree(Sample()), Keys(Sample())), 70)
      == Returns((State(SampleAfterRemoval(), {30, 50, 60, 80}), true))
  {
    var n30, n60, n80 := Obj(Null, Some(30), Null), Obj(Null, Some(60), Null), Obj(Null, Some(80), Null);
    var n70 := Obj(n60, Some(70), n80);
    var a := Obj(n30, Some(50), n70);
    assert FromTree(Sample()) == a;
    assert NodeWalk(n70, 70) == Returns([]);
    assert [true] + [] == [true];
    assert Prepend(true, Returns([])) == Returns([true]);
    assert NodeWalk(a, 70) == Returns([true]);
    assert IterGetParent(Some(70), a) == Returns(Some([]));
    assert Keys(Sample()) == {30, 50, 60, 70, 80};
    assert At(a, [true]) == n70 && At(a, []) == a;
    assert LeftmostPath(n80) == [] && Leftmost(n80) == n80;
    var mid := Obj(n60, Some(80), EmptyNode);
    assert SetKey(a, [true], Some(80)) == Obj(n30, Some(50), Obj(n60, Some(80), n80));
    var root := Obj(n30, Some(50), mid);
    assert Put(SetKey(a, [true], Some(80)), [true, true], EmptyNode) == root;
    assert IterGetParent(Some(80), root) == Returns(Some([]));
    assert SetChild(root, [], false, Null) == SampleAfterRemoval();
    assert Keys(Sample()) - {70} == {30, 50, 60, 80};
    assert n70.left.Obj? && n70.right.Obj?;
    assert [true] + [true] + LeftmostPath(n80) == [true, true];
  }

  /** Afterwards the index still lists 30, which no walk reaches, and the
      in-order listing skips the emptied node: 50, 60, 80. */
  lemma RemovalLeavesIndexAhead()
    ensures 30 in Keys(Sample()) - {70} && 30 !in ObjKeys(SampleAfterRemoval())
    ensures ObjInOrder(SampleAfterRemoval()) == [Some(50), Some(60), Some(80)]
  {
  }

  /** The corrected removal keeps 30: it lists 30, 50, 60, 80. */
  lemma CorrectedRemovalKeepsKeys()
    ensures InOrder(Delete(Sample(), 70)) == [30, 50, 60, 80]
    ensures Delete(Sample(), 70) == Node(Leaf(30), 50, Node(Leaf(60), 80, Empty))
  {
  }

  /** The walk for a key that is in no node steps onto a null pointer. */
  lemma {:induction false} AbsentKeyWalkThrows(t: Tree, k: int)
    requires k !in Keys(t)
    ensures ParentWalk(FromTree(t), k) == Throws
  {
    match t
    case Empty =>
    case Node(l, x, r) =>
      if k > x { AbsentKeyWalkThrows(r, k); } else { AbsentKeyWalkThrows(l, k); }
  }

  /** For a node whose key is not in the tree, which the documentation says
      gets the empty node back, the parent lookup throws instead; so it does
      on a tree without keys, whose root key is null. */
  lemma AbsentParentLookupThrows(t: Tree, k: int)
    requires k !in Keys(t)
    ensures IterGetParent(Some(k), RootObj(t)) == Throws
  {
    if t.Node? { AbsentKeyWalkThrows(t, k); }
  }

  lemma AtCons(l: Obj, x: Option<int>, r: Obj, d: bool, p: Path)
    ensures At(Obj(l, x, r), [d] + p) == At(if d then r else l, p)
  {
  }

  lemma SetChildCons(l: Obj, x: Option<int>, r: Obj, d: bool, p: Path, right: bool, c: Obj)
    ensures SetChild(Obj(l, x, r), [d] + p, right, c)
      == if d then Obj(l, x, SetChild(r, p, right, c)) else Obj(SetChild(l, p, right, c), x, r)
  {
  }

  lemma SetKeyCons(l: Obj, x: Option<int>, r: Obj, d: bool, p: Path, k: Option<int>)
    ensures SetKey(Obj(l, x, r), [d] + p, k)
      == if d then Obj(l, x, SetKey(r, p, k)) else Obj(SetKey(l, p, k), x, r)
  {
  }

  /** Overwriting a pointer discards whatever was done to the node it led to. */
  lemma {:induction false} ChildOverwritesKey(a: Obj, p: Path, d: bool, k: Option<int>, c: Obj)
    ensures SetChild(SetKey(a, p + [d], k), p, d, c) == SetChild(a, p, d, c)
    decreases |p|
  {
    match a
    case Null =>
      if |p| > 0 {
        assert (p + [d])[1..] == p[1..] + [d];
      }
    case Obj(l, x, r) =>
      if |p| == 0 {
        assert p + [d] == [d] + [];
      } else {
        var e, q := p[0], p[1..];
        assert p == [e] + q && p + [d] == [e] + (q + [d]);
        SetKeyCons(l, x, r, e, q + [d], k);
        SetChildCons(l, x, r, e, q, d, c);
        if e {
          ChildOverwritesKey(r, q, d, k, c);
          SetChildCons(l, x, SetKey(r, q + [d], k), e, q, d, c);
        } else {
          ChildOverwritesKey(l, q, d, k, c);
          SetChildCons(SetKey(l, q + [d], k), x, r, e, q, d, c);
        }
      }
  }

  /** On a search tree, a key below the root is found by both walks: the
      parent walk ends at the node `Parent` names, and the node walk one
      step further, on the side the comparison with the parent picks. */
  lemma {:induction false} ParentWalkFindsParent(t: Tree, k: int)
    requires IsBST(t) && k in Keys(t) && k != t.key
    ensures var w := ParentWalk(FromTree(t), k);
      var p := Parent(t, k);
      && w.Returns? && p.Node?
      && At(FromTree(t), w.value) == FromTree(p)
      && NodeWalk(FromTree(t), k) == Returns(w.value + [!(k < p.key)])
      && At(FromTree(t), w.value + [!(k < p.key)]) == FromTree(Find(t, k))
  {
    var Node(l, x, r) := t;
    var fl, fr := FromTree(l), FromTree(r);
    assert FromTree(t) == Obj(fl, Some(x), fr);
    var d := k > x;
    var c := if d then r else l;
    assert k in Keys(c) && Find(t, k) == Find(c, k) && !Holds(FromTree(if d then l else r), k);
    if HasKey(c, k) {
      assert Holds(FromTree(c), k) && ParentWalk(FromTree(t), k) == Returns([]);
      assert NodeWalk(FromTree(c), k) == Returns([]);
      assert NodeWalk(FromTree(t), k) == Prepend(d, Returns([]));
      assert [] + [d] == [d] + [];
      AtCons(fl, Some(x), fr, d, []);
    } else {
      assert !Holds(FromTree(c), k);
      ParentWalkFindsParent(c, k);
      var w := ParentWalk(FromTree(c), k).value;
      var e := !(k < Parent(c, k).key);
      assert ParentWalk(FromTree(t), k) == Prepend(d, ParentWalk(FromTree(c), k));
      assert NodeWalk(FromTree(t), k) == Prepend(d, NodeWalk(FromTree(c), k));
      assert Parent(t, k) == Parent(c, k);
      AtCons(fl, Some(x), fr, d, w);
      AtCons(fl, Some(x), fr, d, w + [e]);
      assert [d] + w + [e] == [d] + (w + [e]);
    }
  }

  /** ... and setting that parent's pointer to what `RemoveRoot` leaves of
      the node is exactly the corrected removal. */
  lemma {:induction false} ParentPointerReset(t: Tree, k: int)
    requires IsBST(t) && k in Keys(t) && k != t.key
    ensures ParentWalk(FromTree(t), k).Returns? && Parent(t, k).Node?
    ensures SetChild(FromTree(t), ParentWalk(FromTree(t), k).value, !(k < Parent(t, k).key), FromTree(RemoveRoot(Find(t, k))))
      == FromTree(Delete(t, k))
  {
    ParentWalkFindsParent(t, k);
    var Node(l, x, r) := t;
    var fl, fr := FromTree(l), FromTree(r);
    assert FromTree(t) == Obj(fl, Some(x), fr);
    var d := k > x;
    var c := if d then r else l;
    assert k in Keys(c) && Find(t, k) == Find(c, k) && !Holds(FromTree(if d then l else r), k);
    var m := FromTree(RemoveRoot(Find(c, k)));
    if HasKey(c, k) {
      assert Holds(FromTree(c), k) && ParentWalk(FromTree(t), k) == Returns([]);
      assert Parent(t, k) == t;
      assert SetChild(FromTree(t), [], d, m) == if d then Obj(fl, Some(x), m) else Obj(m, Some(x), fr);
    } else {
      assert !Holds(FromTree(c), k);
      ParentWalkFindsParent(c, k);
      ParentPointerReset(c, k);
      var w := ParentWalk(FromTree(c), k).value;
      var e := !(k < Parent(c, k).key);
      assert ParentWalk(FromTree(t), k) == Returns([d] + w);
      assert Parent(t, k) == Parent(c, k);
      SetChildCons(fl, Some(x), fr, d, w, e, m);
    }
  }

  /** Where the written code is right it agrees with the corrected
      removal: a key below the root whose node lacks a child is removed
      exactly as `Delete` removes it, and the index loses just that key. */
  lemma OffRootRemovalAgrees(t: Tree, k: int)
    requires IsBST(t) && k in Keys(t) && k != t.key
    requires Find(t, k).left.Empty? || Find(t, k).right.Empty?
    ensures Remove(State(FromTree(t), Keys(t)), k) == Returns((State(FromTree(Delete(t, k)), Keys(t) - {k}), true))
  {
    ParentWalkFindsParent(t, k);
    ParentPointerReset(t, k);
    var a := FromTree(t);
    var w := ParentWalk(a, k).value;
    var d := !(k < Parent(t, k).key);
    var n := Find(t, k);
    assert IterGetParent(Some(k), a) == Returns(Some(w));
    if n.left.Empty? && n.right.Empty? {
      assert RemoveRoot(n) == Empty;
      ChildOverwritesKey(a, w, d, None, Null);
    }
  }
}
