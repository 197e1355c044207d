/**
 * A worked example: the seven keys 50, 30, 70, 20, 40, 60, 80 loaded in
 * that order, their three traversals, and the removal of the root key.
 */
module Examples {
  import opened Trees
  import opened Insertion
  import opened Deletion

  /** The full tree of height three that the seven keys load into. */
  function Full(): Tree {
    Node(Node(Leaf(20), 30, Leaf(40)), 50, Node(Leaf(60), 70, Leaf(80)))
  }

  lemma AddAllSnoc(t: Tree, ks: seq<int>, k: int)
    ensures AddAll(t, ks + [k]) == AddKey(AddAll(t, ks), k)
  {
  }

  /** The first four keys land where the comparisons lead them ... */
  lemma FirstFourSteps()
    ensures AddKey(Empty, 50) == Leaf(50)
    ensures AddKey(Leaf(50), 30) == Node(Leaf(30), 50, Empty)
    ensures AddKey(Node(Leaf(30), 50, Empty), 70) == Node(Leaf(30), 50, Leaf(70))
    ensures AddKey(Node(Leaf(30), 50, Leaf(70)), 20) == Node(Node(Leaf(20), 30, Empty), 50, Leaf(70))
  {
    assert CheckAndPlace(Leaf(30), 20) == Node(Leaf(20), 30, Empty);
  }

  /** ... and so do the last three. */
  lemma LastThreeSteps()
    ensures AddKey(Node(Node(Leaf(20), 30, Empty), 50, Leaf(70)), 40) == Node(Node(Leaf(20), 30, Leaf(40)), 50, Leaf(70))
    ensures AddKey(Node(Node(Leaf(20), 30, Leaf(40)), 50, Leaf(70)), 60)
      == Node(Node(Leaf(20), 30, Leaf(40)), 50, Node(Leaf(60), 70, Empty))
    ensures AddKey(Node(Node(Leaf(20), 30, Leaf(40)), 50, Node(Leaf(60), 70, Empty)), 80) == Full()
  {
    assert CheckAndPlace(Node(Leaf(20), 30, Empty), 40) == Node(Leaf(20), 30, Leaf(40));
    assert CheckAndPlace(Leaf(70), 60) == Node(Leaf(60), 70, Empty);
    assert CheckAndPlace(Node(Leaf(60), 70, Empty), 80) == Node(Leaf(60), 70, Leaf(80));
  }

  /** Loading 50, 30, 70, 20, 40, 60, 80 one after another gives the full tree. */
  lemma SevenKeysShape()
    ensures AddAll(Empty, [50, 30, 70, 20, 40, 60, 80]) == Full()
  {
    FirstFourSteps();
    LastThreeSteps();
    var s0: seq<int> := [];
    var s1 := s0 + [50];
    var s2 := s1 + [30];
    var s3 := s2 + [70];
    var s4 := s3 + [20];
    var s5 := s4 + [40];
    var s6 := s5 + [60];
    var s7 := s6 + [80];
    AddAllSnoc(Empty, s0, 50);
    AddAllSnoc(Empty, s1, 30);
    AddAllSnoc(Empty, s2, 70);
    AddAllSnoc(Empty, s3, 20);
    AddAllSnoc(Empty, s4, 40);
    AddAllSnoc(Empty, s5, 60);
    AddAllSnoc(Empty, s6, 80);
    assert s7 == [50, 30, 70, 20, 40, 60, 80];
  }

  /** The three traversals of that tree, and its height. */
  lemma SevenKeysTraversals()
    ensures PreOrder(Full()) == [50, 30, 20, 40, 70, 60, 80]
    ensures InOrder(Full()) == [20, 30, 40, 50, 60, 70, 80]
    ensures PostOrder(Full()) == [20, 40, 30, 60, 80, 70, 50]
    ensures Height(Full()) == 3
  {
    var l, r := Node(Leaf(20), 30, Leaf(40)), Node(Leaf(60), 70, Leaf(80));
    assert PreOrder(l) == [30, 20, 40] && PreOrder(r) == [70, 60, 80];
    assert InOrder(l) == [20, 30, 40] && InOrder(r) == [60, 70, 80];
    assert PostOrder(l) == [20, 40, 30] && PostOrder(r) == [60, 80, 70];
  }

  /** Removing the root key 50 moves its successor 60 up to the root. */
  lemma SevenKeysRootRemoval()
    ensures Delete(Full(), 50) == Node(Node(Leaf(20), 30, Leaf(40)), 60, Node(Empty, 70, Leaf(80)))
    ensures InOrder(Delete(Full(), 50)) == [20, 30, 40, 60, 70, 80]
  {
    var r := Node(Leaf(60), 70, Leaf(80));
    assert MinKey(r) == 60 && DeleteMin(r) == Node(Empty, 70, Leaf(80));
    assert InOrder(Node(Empty, 70, Leaf(80))) == [70, 80];
  }
}
