/**
 * How the iterator of a right-threaded tree moves: `++` follows a thread when
 * the node has one and otherwise goes to the leftmost node of the real right
 * subtree. The lemmas show that this walk, started at the leftmost node of the
 * whole tree, is exactly the in-order walk, and that it ends at Null.
 */
module Iteration {
  import opened Sorted
  import opened Arena

  /** The node reached from `cur` by following real left links as far as they go (Null from Null). */
  ghost function Leftmost(nodes: seq<Node>, cur: int): (r: int)
    requires Linked(nodes) && Null <= cur < |nodes|
    ensures Null <= r < |nodes|
    ensures cur != Null ==> r != Null && nodes[r].left == Null
    ensures cur == Null ==> r == Null
    decreases Rank(nodes, cur)
  {
    if cur == Null || nodes[cur].left == Null then cur else Leftmost(nodes, nodes[cur].left)
  }

  /** Where one `++` moves the iterator from `ptr`: nowhere from Null, along the thread, or to the leftmost node on the right. */
  ghost function Next(nodes: seq<Node>, ptr: int): (r: int)
    requires Linked(nodes) && Null <= ptr < |nodes|
    ensures Null <= r < |nodes|
  {
    if ptr == Null then Null
    else if nodes[ptr].isThreaded then nodes[ptr].GetThread()
    else Leftmost(nodes, nodes[ptr].GetRight())
  }

  /** Where `steps` applications of `++` take the iterator from `ptr`. */
  ghost function Advanced(nodes: seq<Node>, ptr: int, steps: nat): (r: int)
    requires Linked(nodes) && Null <= ptr < |nodes|
    ensures Null <= r < |nodes|
  {
    if steps == 0 then ptr else Next(nodes, Advanced(nodes, ptr, steps - 1))
  }

  /** The leftmost node of a non-empty subtree is the first node of its in-order walk. */
  lemma {:induction false} LeftmostFirst(nodes: seq<Node>, cur: int)
    requires Linked(nodes) && 0 <= cur < |nodes|
    ensures Inorder(nodes, cur) != [] && Leftmost(nodes, cur) == Inorder(nodes, cur)[0]
    decreases Rank(nodes, cur)
  {
    var l := nodes[cur].left;
    if l != Null {
      LeftmostFirst(nodes, l);
    }
  }

  /**
   * A node with a real right child is followed in the in-order walk by the
   * leftmost node of that right subtree.
   */
  lemma {:induction false} RightSubtreeSuccessors(nodes: seq<Node>, cur: int)
    requires Linked(nodes) && Null <= cur < |nodes|
    ensures forall j {:trigger Inorder(nodes, cur)[j]} :: 0 <= j < |Inorder(nodes, cur)| ==>
      0 <= Inorder(nodes, cur)[j] < |nodes| &&
      (!nodes[Inorder(nodes, cur)[j]].isThreaded ==>
         j + 1 < |Inorder(nodes, cur)| && Leftmost(nodes, nodes[Inorder(nodes, cur)[j]].right) == Inorder(nodes, cur)[j + 1])
    decreases Rank(nodes, cur)
  {
    if cur != Null {
      var l, r := nodes[cur].left, nodes[cur].GetRight();
      RightSubtreeSuccessors(nodes, l);
      RightSubtreeSuccessors(nodes, r);
      var order := Inorder(nodes, cur);
      var lo, ro := Inorder(nodes, l), Inorder(nodes, r);
      assert order == lo + [cur] + ro;
      forall j | 0 <= j < |order|
        ensures 0 <= order[j] < |nodes| &&
          (!nodes[order[j]].isThreaded ==> j + 1 < |order| && Leftmost(nodes, nodes[order[j]].right) == order[j + 1])
      {
        if j < |lo| {
          assert order[j] == lo[j];
          if !nodes[lo[j]].isThreaded {
            assert j + 1 < |lo| && Leftmost(nodes, nodes[lo[j]].right) == lo[j + 1];
            assert order[j + 1] == lo[j + 1];
          }
        } else if j == |lo| {
          if !nodes[cur].isThreaded {
            LeftmostFirst(nodes, r);
            assert order[j + 1] == ro[0];
          }
        } else {
          var k := j - |lo| - 1;
          assert order[j] == ro[k];
          if !nodes[ro[k]].isThreaded {
            assert k + 1 < |ro| && Leftmost(nodes, nodes[ro[k]].right) == ro[k + 1];
            assert order[j + 1] == ro[k + 1];
          }
        }
      }
    }
  }

  /**
   * In a subtree whose threads are sound and whose in-order successor is
   * `succ`, one `++` from the node at position `j` of the in-order walk lands
   * on the node at position `j + 1`, or on `succ` from the last node.
   */
  lemma NextFollowsInorder(nodes: seq<Node>, cur: int, succ: int)
    requires Linked(nodes) && Null <= cur < |nodes|
    requires Threaded(nodes, cur, succ)
    ensures forall j :: 0 <= j < |Inorder(nodes, cur)| ==>
      0 <= Inorder(nodes, cur)[j] < |nodes| &&
      Next(nodes, Inorder(nodes, cur)[j]) == (Inorder(nodes, cur) + [succ])[j + 1]
  {
    ThreadsAreSuccessors(nodes, cur, succ);
    RightSubtreeSuccessors(nodes, cur);
    var order := Inorder(nodes, cur);
    forall j | 0 <= j < |order|
      ensures 0 <= order[j] < |nodes| && Next(nodes, order[j]) == (order + [succ])[j + 1]
    {
      if !nodes[order[j]].isThreaded {
        assert (order + [succ])[j + 1] == order[j + 1];
      }
    }
  }

  /**
   * In a well-formed tree, `steps` applications of `++` from the leftmost
   * node (the iterator `begin` returns) reach the node at position `steps` of
   * the in-order walk, and after all of them reach Null (the end iterator).
   */
  lemma {:induction false} IterationOrder(nodes: seq<Node>, root: int, steps: nat)
    requires WellFormed(nodes, root) && steps <= |nodes|
    ensures |Inorder(nodes, root)| == |nodes|
    ensures Advanced(nodes, Leftmost(nodes, root), steps) == (Inorder(nodes, root) + [Null])[steps]
  {
    InorderFacts(nodes, root);
    var order := Inorder(nodes, root);
    if steps == 0 {
      if root != Null {
        LeftmostFirst(nodes, root);
      }
    } else {
      IterationOrder(nodes, root, steps - 1);
      NextFollowsInorder(nodes, root, Null);
      assert (order + [Null])[steps - 1] == order[steps - 1];
    }
  }

  /**
   * What the loop `for (it = begin(); it != end(); ++it)` sees: for every
   * step before the last, the iterator stands on a node holding the next
   * key of the in-order export; after as many steps as there are nodes it
   * stands at the end.
   */
  lemma IterationVisitsExport(nodes: seq<Node>, root: int, steps: nat)
    requires WellFormed(nodes, root) && steps <= |nodes|
    ensures var ptr := Advanced(nodes, Leftmost(nodes, root), steps);
      && (steps < |nodes| ==> 0 <= ptr && nodes[ptr].key == SubtreeToVector(nodes, root)[steps])
      && (steps == |nodes| <==> ptr == Null)
  {
    IterationOrder(nodes, root, steps);
    InorderFacts(nodes, root);
    if steps < |nodes| {
      assert (Inorder(nodes, root) + [Null])[steps] == Inorder(nodes, root)[steps];
    }
  }

  /** `++` at the end leaves the iterator at the end, however often it is applied. */
  lemma {:induction false} AdvancedFromEnd(nodes: seq<Node>, steps: nat)
    requires Linked(nodes)
    ensures Advanced(nodes, Null, steps) == Null
  {
    if steps > 0 {
      AdvancedFromEnd(nodes, steps - 1);
    }
  }

  /** In a non-empty well-formed tree the leftmost node holds the least key, the first of the export. */
  lemma LeftmostIsMinimum(nodes: seq<Node>, root: int)
    requires WellFormed(nodes, root) && |nodes| > 0
    ensures var b := Leftmost(nodes, root);
      && 0 <= b < |nodes| && nodes[b].key == SubtreeToVector(nodes, root)[0]
      && forall x :: x in KeySet(nodes) ==> nodes[b].key <= x
  {
    LeftmostFirst(nodes, root);
    InorderFacts(nodes, root);
    KeysListed(nodes, root);
    var keys := SubtreeToVector(nodes, root);
    forall x | x in KeySet(nodes) ensures keys[0] <= x {
      AscendingMin(keys, x);
    }
  }
}
