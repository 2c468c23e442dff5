/**
 * One concrete run: the nine insertions of the set {30, 15, 50, 8, 25, 70,
 * 20, 28, 60}, the arena after each, and the pairs export of the result.
 */
module Scenarios {
  import opened Arena
  import opened Insertion
  import opened ThreadedSets

  const A1: seq<Node> := [Node(30, true, -1, -1)]
  const A2: seq<Node> := [Node(30, true, 1, -1), Node(15, true, -1, 0)]
  const A3: seq<Node> := [Node(30, false, 1, 2), Node(15, true, -1, 0), Node(50, true, -1, -1)]
  const A4: seq<Node> := [Node(30, false, 1, 2), Node(15, true, 3, 0), Node(50, true, -1, -1), Node(8, true, -1, 1)]
  const A5: seq<Node> := [Node(30, false, 1, 2), Node(15, false, 3, 4), Node(50, true, -1, -1), Node(8, true, -1, 1),
                          Node(25, true, -1, 0)]
  const A6: seq<Node> := [Node(30, false, 1, 2), Node(15, false, 3, 4), Node(50, false, -1, 5), Node(8, true, -1, 1),
                          Node(25, true, -1, 0), Node(70, true, -1, -1)]
  const A7: seq<Node> := [Node(30, false, 1, 2), Node(15, false, 3, 4), Node(50, false, -1, 5), Node(8, true, -1, 1),
                          Node(25, true, 6, 0), Node(70, true, -1, -1), Node(20, true, -1, 4)]
  const A8: seq<Node> := [Node(30, false, 1, 2), Node(15, false, 3, 4), Node(50, false, -1, 5), Node(8, true, -1, 1),
                          Node(25, false, 6, 7), Node(70, true, -1, -1), Node(20, true, -1, 4), Node(28, true, -1, 0)]
  const A9: seq<Node> := [Node(30, false, 1, 2), Node(15, false, 3, 4), Node(50, false, -1, 5), Node(8, true, -1, 1),
                          Node(25, false, 6, 7), Node(70, true, 8, -1), Node(20, true, -1, 4), Node(28, true, -1, 0),
                          Node(60, true, -1, 5)]

  lemma Insert1()
    ensures Inserted([], Null, 30) == A1
  {
  }

  lemma Insert2()
    ensures Linked(A1) && Inserted(A1, 0, 15) == A2
  {
  }

  lemma Insert3()
    ensures Linked(A2) && Inserted(A2, 0, 50) == A3
  {
  }

  lemma Insert4()
    ensures Linked(A3) && Inserted(A3, 0, 8) == A4
  {
  }

  lemma Insert5()
    ensures Linked(A4) && Inserted(A4, 0, 25) == A5
  {
  }

  lemma Insert6()
    ensures Linked(A5) && Inserted(A5, 0, 70) == A6
  {
  }

  lemma Insert7()
    ensures Linked(A6) && Inserted(A6, 0, 20) == A7
  {
  }

  lemma Insert8()
    ensures Linked(A7) && Inserted(A7, 0, 28) == A8
  {
  }

  lemma Insert9()
    ensures Linked(A8) && Inserted(A8, 0, 60) == A9
  {
  }

  lemma Linked9()
    ensures Linked(A9)
  {
  }

  /** The pairs of the left subtree of the example, below 30. */
  lemma LeftPairs9()
    requires Linked(A9)
    ensures SubtreePairs(A9, 1, -1) == [(8, 15), (15, -1), (20, 25), (25, -1), (28, 30)]
  {
    assert SubtreePairs(A9, 3, -1) == [(8, 15)];
    assert SubtreePairs(A9, 6, -1) == [(20, 25)];
    assert SubtreePairs(A9, 7, -1) == [(28, 30)];
    assert SubtreePairs(A9, 4, -1) == [(20, 25), (25, -1), (28, 30)];
  }

  /** The pairs of the right subtree of the example, above 30. */
  lemma RightPairs9()
    requires Linked(A9)
    ensures SubtreePairs(A9, 2, -1) == [(50, -1), (60, 70), (70, -1)]
  {
    assert SubtreePairs(A9, 8, -1) == [(60, 70)];
    assert SubtreePairs(A9, 5, -1) == [(60, 70), (70, -1)];
  }

  lemma Pairs9()
    ensures Linked(A9) && SubtreePairs(A9, 0, -1) == [(8, 15), (15, -1), (20, 25), (25, -1), (28, 30), (30, -1), (50, -1), (60, 70), (70, -1)]
  {
    Linked9();
    LeftPairs9();
    RightPairs9();
  }

  /** The set built by inserting 30, 15, 50 and 8 into an empty set, in that order. */
  method BuildFirstFour() returns (s: ThreadedSet)
    ensures fresh(s) && s.Valid() && s.nodes == A4
  {
    s := new ThreadedSet();
    Insert1();
    s.Insert(30);
    assert s.nodes == A1;
    Insert2();
    s.Insert(15);
    assert s.nodes == A2;
    Insert3();
    s.Insert(50);
    assert s.nodes == A3;
    Insert4();
    s.Insert(8);
    assert s.nodes == A4;
  }

  /** The set built by inserting 30, 15, 50, 8, 25, 70, 20, 28 and 60 into an empty set, in that order. */
  method BuildExample() returns (s: ThreadedSet)
    ensures fresh(s) && s.Valid() && s.nodes == A9
  {
    s := BuildFirstFour();
    Insert5();
    s.Insert(25);
    assert s.nodes == A5;
    Insert6();
    s.Insert(70);
    assert s.nodes == A6;
    Insert7();
    s.Insert(20);
    assert s.nodes == A7;
    Insert8();
    s.Insert(28);
    assert s.nodes == A8;
    Insert9();
    s.Insert(60);
    assert s.nodes == A9;
  }

  /** The pairs export of that set, with -1 as the no-element value. */
  method PairsExample() returns (pairs: seq<(int, int)>)
    ensures pairs == [(8, 15), (15, -1), (20, 25), (25, -1), (28, 30), (30, -1), (50, -1), (60, 70), (70, -1)]
  {
    var s := BuildExample();
    Pairs9();
    pairs := s.ToPairs(-1);
  }

  /** The keys of the left subtree of the example, below 30. */
  lemma LeftVector9()
    requires Linked(A9)
    ensures SubtreeToVector(A9, 1) == [8, 15, 20, 25, 28]
  {
    assert SubtreeToVector(A9, 3) == [8];
    assert SubtreeToVector(A9, 4) == [20, 25, 28];
  }

  /** The keys of the right subtree of the example, above 30. */
  lemma RightVector9()
    requires Linked(A9)
    ensures SubtreeToVector(A9, 2) == [50, 60, 70]
  {
    assert SubtreeToVector(A9, 5) == [60, 70];
  }

  lemma Vector9()
    ensures Linked(A9) && SubtreeToVector(A9, 0) == [8, 15, 20, 25, 28, 30, 50, 60, 70]
  {
    Linked9();
    LeftVector9();
    RightVector9();
  }

  /** Walking that set from `begin()` to `end()` yields its keys in ascending order. */
  method TraverseExample() returns (visited: seq<int>)
    ensures visited == [8, 15, 20, 25, 28, 30, 50, 60, 70]
  {
    var s := BuildExample();
    Vector9();
    visited := Traverse(s);
  }

  /**
   * An empty set has size 0, `find` of any key gives `end()`, its `begin()`
   * is `end()`, and `++` leaves it at `end()`.
   */
  method EmptyExample(key: int) returns (size: int, found: bool, beginIsEnd: bool, stillEnd: bool)
    ensures size == 0 && !found && beginIsEnd && stillEnd
  {
    var s := new ThreadedSet();
    size := s.Size();
    var e := s.End();
    var f := s.Find(key);
    found := f.NotEquals(e);
    var b := s.Begin();
    beginIsEnd := b.Equals(e);
    b.Advance();
    stillEnd := b.Equals(e);
  }

  /** In a one-key set, `find` of the key yields the key, and `++` from there or from `end()` reaches `end()`. */
  method FindThenAdvanceExample(key: int) returns (found: Result<int>, endAfterFound: bool, endAfterEnd: bool)
    ensures found == Ok(key) && endAfterFound && endAfterEnd
  {
    var s := new ThreadedSet();
    s.Insert(key);
    var f := s.Find(key);
    found := f.Deref();
    f.Advance();
    var e := s.End();
    endAfterFound := f.Equals(e);
    var e2 := s.End();
    e2.Advance();
    endAfterEnd := e2.Equals(e);
  }

  /** With one key, `begin()` yields that key and one `++` reaches `end()`. */
  method SingletonExample(key: int) returns (first: Result<int>, endAfterOne: bool)
    ensures first == Ok(key) && endAfterOne
  {
    var s := new ThreadedSet();
    s.Insert(key);
    var e := s.End();
    var b := s.Begin();
    first := b.Deref();
    b.Advance();
    endAfterOne := b.Equals(e);
  }
}
