/**
 * The nodes of a right-threaded binary search tree, kept in an arena.
 *
 * A node is referred to by its index in `nodes`; `Null` is the null pointer.
 * Nodes are only ever appended, and a node is always attached below a node
 * that already exists, so every real child link (`left`, and `right` when the
 * node is not threaded) points to a later index. That gives the recursive
 * walks below their termination measure, `Rank`.
 */
module Arena {
  import opened Sorted

  const Null := -1

  /**
   * One tree node. When `isThreaded` is false, `right` is the real right
   * child; when it is true, `right` is the in-order successor (or Null for
   * the maximum), a link that carries no ownership.
   */
  datatype Node = Node(key: int, isThreaded: bool, left: int, right: int)
  {
    /** The real right child: a thread reads as no child. */
    function GetRight(): int {
      if isThreaded then Null else right
    }

    /** The node this one is threaded to: Null when it is not threaded. */
    function GetThread(): int {
      if isThreaded then right else Null
    }
  }

  /**
   * Every link stays inside the arena, real children come after their parent,
   * and a node that is not threaded has a real right child.
   */
  ghost predicate Linked(nodes: seq<Node>) {
    forall i :: 0 <= i < |nodes| ==>
      && (nodes[i].left == Null || i < nodes[i].left < |nodes|)
      && (if nodes[i].isThreaded then Null <= nodes[i].right < |nodes|
          else i < nodes[i].right < |nodes|)
  }

  /** Termination measure of the walks: real children have smaller rank. */
  function Rank(nodes: seq<Node>, cur: int): nat
    requires Null <= cur < |nodes|
  {
    if cur == Null then 0 else |nodes| - cur
  }

  /** Search of the subtree rooted at `cur`; a thread counts as no right child. */
  function SubtreeContains(nodes: seq<Node>, cur: int, key: int): bool
    requires Linked(nodes) && Null <= cur < |nodes|
    decreases Rank(nodes, cur)
  {
    if cur == Null then false
    else if key < nodes[cur].key then SubtreeContains(nodes, nodes[cur].left, key)
    else if nodes[cur].key < key then SubtreeContains(nodes, nodes[cur].GetRight(), key)
    else true
  }

  /** In-order keys of the subtree rooted at `cur`: left, the node, then the real right subtree. */
  function SubtreeToVector(nodes: seq<Node>, cur: int): seq<int>
    requires Linked(nodes) && Null <= cur < |nodes|
    decreases Rank(nodes, cur)
  {
    if cur == Null then []
    else SubtreeToVector(nodes, nodes[cur].left) + [nodes[cur].key]
         + SubtreeToVector(nodes, nodes[cur].GetRight())
  }

  /**
   * The second component of node `i`'s pair: the key of the node it is
   * threaded to, or `noElement` when it is not threaded or threaded to nothing.
   */
  function ThreadKey(nodes: seq<Node>, i: int, noElement: int): int
    requires Linked(nodes) && 0 <= i < |nodes|
  {
    if nodes[i].isThreaded then
      (if nodes[i].GetThread() != Null then nodes[nodes[i].GetThread()].key else noElement)
    else noElement
  }

  /** In-order (key, thread key) pairs of the subtree rooted at `cur`. */
  function SubtreePairs(nodes: seq<Node>, cur: int, noElement: int): seq<(int, int)>
    requires Linked(nodes) && Null <= cur < |nodes|
    decreases Rank(nodes, cur)
  {
    if cur == Null then []
    else
      SubtreePairs(nodes, nodes[cur].left, noElement) + [(nodes[cur].key, ThreadKey(nodes, cur, noElement))]
      + SubtreePairs(nodes, nodes[cur].GetRight(), noElement)
  }

  /** In-order node indices of the subtree rooted at `cur`. */
  ghost function Inorder(nodes: seq<Node>, cur: int): seq<int>
    requires Linked(nodes) && Null <= cur < |nodes|
    decreases Rank(nodes, cur)
  {
    if cur == Null then []
    else Inorder(nodes, nodes[cur].left) + [cur] + Inorder(nodes, nodes[cur].GetRight())
  }

  /**
   * Every thread in the subtree rooted at `cur` points to the in-order
   * successor, given that the successor of the whole subtree is `succ`: the
   * left subtree is followed by `cur`, the right one by `succ`, and a node
   * without a real right child is threaded to `succ`.
   */
  ghost predicate Threaded(nodes: seq<Node>, cur: int, succ: int)
    requires Linked(nodes) && Null <= cur < |nodes|
    decreases Rank(nodes, cur)
  {
    cur == Null ||
    (Threaded(nodes, nodes[cur].left, cur) &&
     if nodes[cur].isThreaded then nodes[cur].right == succ
     else Threaded(nodes, nodes[cur].right, succ))
  }

  /** The keys held by the nodes of the arena. */
  ghost function KeySet(nodes: seq<Node>): set<int> {
    set i | 0 <= i < |nodes| :: nodes[i].key
  }

  /** The root of a set whose arena is `nodes`: the first node allocated. */
  function RootOf(nodes: seq<Node>): int {
    if |nodes| == 0 then Null else 0
  }

  /**
   * The invariant of the whole tree: links are sound, the root is node 0,
   * the in-order walk visits every node once in strictly ascending key order,
   * and every thread is the in-order successor (Null for the maximum).
   */
  ghost predicate WellFormed(nodes: seq<Node>, root: int) {
    && Linked(nodes)
    && root == RootOf(nodes)
    && |SubtreeToVector(nodes, root)| == |nodes|
    && Ascending(SubtreeToVector(nodes, root))
    && Threaded(nodes, root, Null)
    && forall i :: 0 <= i < |nodes| ==> i in Inorder(nodes, root)
  }

  /** The in-order indices line up with the in-order keys, and lie at or below the subtree's root. */
  lemma {:induction false} InorderFacts(nodes: seq<Node>, cur: int)
    requires Linked(nodes) && Null <= cur < |nodes|
    ensures |Inorder(nodes, cur)| == |SubtreeToVector(nodes, cur)|
    ensures forall j :: 0 <= j < |Inorder(nodes, cur)| ==>
      cur <= Inorder(nodes, cur)[j] < |nodes| && nodes[Inorder(nodes, cur)[j]].key == SubtreeToVector(nodes, cur)[j]
    decreases Rank(nodes, cur)
  {
    if cur != Null {
      var l, r := nodes[cur].left, nodes[cur].GetRight();
      InorderFacts(nodes, l);
      InorderFacts(nodes, r);
      var order, keys := Inorder(nodes, cur), SubtreeToVector(nodes, cur);
      var lo, lk := Inorder(nodes, l), SubtreeToVector(nodes, l);
      var ro, rk := Inorder(nodes, r), SubtreeToVector(nodes, r);
      assert order == lo + [cur] + ro && keys == lk + [nodes[cur].key] + rk;
      forall j | 0 <= j < |order|
        ensures cur <= order[j] < |nodes| && nodes[order[j]].key == keys[j]
      {
        if j < |lo| {
          assert order[j] == lo[j] && keys[j] == lk[j];
        } else if j > |lo| {
          assert order[j] == ro[j - |lo| - 1] && keys[j] == rk[j - |lo| - 1];
        }
      }
    }
  }

  /** Every node of a subtree lies at or after its root, and its key is listed in the subtree's export. */
  lemma InorderMembers(nodes: seq<Node>, cur: int)
    requires Linked(nodes) && Null <= cur < |nodes|
    ensures forall x :: x in Inorder(nodes, cur) ==>
      cur <= x < |nodes| && nodes[x].key in SubtreeToVector(nodes, cur)
  {
    InorderFacts(nodes, cur);
    var order, keys := Inorder(nodes, cur), SubtreeToVector(nodes, cur);
    forall x | x in order ensures cur <= x < |nodes| && nodes[x].key in keys {
      var j :| 0 <= j < |order| && order[j] == x;
      assert keys[j] in keys;
    }
  }

  /** Search agrees with the in-order export: the key is found exactly when it is listed. */
  lemma {:induction false} ContainsListed(nodes: seq<Node>, cur: int, key: int)
    requires Linked(nodes) && Null <= cur < |nodes|
    requires Ascending(SubtreeToVector(nodes, cur))
    ensures SubtreeContains(nodes, cur, key) <==> key in SubtreeToVector(nodes, cur)
    decreases Rank(nodes, cur)
  {
    if cur != Null {
      var l, r := nodes[cur].left, nodes[cur].GetRight();
      var x := nodes[cur].key;
      AscendingSplit(SubtreeToVector(nodes, l), x, SubtreeToVector(nodes, r));
      ContainsListed(nodes, l, key);
      ContainsListed(nodes, r, key);
    }
  }

  /** In a well-formed tree the keys of distinct nodes differ, and every node's key is listed. */
  lemma NodeKeys(nodes: seq<Node>, root: int)
    requires WellFormed(nodes, root)
    ensures forall a :: 0 <= a < |nodes| ==> nodes[a].key in SubtreeToVector(nodes, root)
    ensures forall a, b :: 0 <= a < |nodes| && 0 <= b < |nodes| && a != b ==> nodes[a].key != nodes[b].key
  {
    InorderFacts(nodes, root);
    InorderMembers(nodes, root);
    var order, keys := Inorder(nodes, root), SubtreeToVector(nodes, root);
    forall a, b | 0 <= a < |nodes| && 0 <= b < |nodes| && a != b
      ensures nodes[a].key != nodes[b].key
    {
      assert a in order && b in order;
      var i :| 0 <= i < |order| && order[i] == a;
      var j :| 0 <= j < |order| && order[j] == b;
      assert keys[i] == nodes[a].key && keys[j] == nodes[b].key;
    }
  }

  /** The pairs export lists every node of the subtree in order, each with its thread key. */
  lemma {:induction false} PairsInorder(nodes: seq<Node>, cur: int, noElement: int)
    requires Linked(nodes) && Null <= cur < |nodes|
    ensures |SubtreePairs(nodes, cur, noElement)| == |Inorder(nodes, cur)|
    ensures forall j :: 0 <= j < |Inorder(nodes, cur)| ==>
      0 <= Inorder(nodes, cur)[j] < |nodes| &&
      SubtreePairs(nodes, cur, noElement)[j]
        == (nodes[Inorder(nodes, cur)[j]].key, ThreadKey(nodes, Inorder(nodes, cur)[j], noElement))
    decreases Rank(nodes, cur)
  {
    if cur != Null {
      var l, r := nodes[cur].left, nodes[cur].GetRight();
      PairsInorder(nodes, l, noElement);
      PairsInorder(nodes, r, noElement);
      var pairs, order := SubtreePairs(nodes, cur, noElement), Inorder(nodes, cur);
      var lp, lo := SubtreePairs(nodes, l, noElement), Inorder(nodes, l);
      var rp, ro := SubtreePairs(nodes, r, noElement), Inorder(nodes, r);
      assert order == lo + [cur] + ro;
      forall j | 0 <= j < |order|
        ensures 0 <= order[j] < |nodes| && pairs[j] == (nodes[order[j]].key, ThreadKey(nodes, order[j], noElement))
      {
        if j < |lo| {
          assert pairs[j] == lp[j] && order[j] == lo[j];
        } else if j > |lo| {
          assert pairs[j] == rp[j - |lo| - 1] && order[j] == ro[j - |lo| - 1];
        }
      }
    }
  }

  /**
   * Positional form of the threading invariant: a threaded node at position
   * `j` of the in-order walk is threaded to the node at position `j + 1`, or
   * to `succ` when it is the last node of the subtree.
   */
  lemma {:induction false} ThreadsAreSuccessors(nodes: seq<Node>, cur: int, succ: int)
    requires Linked(nodes) && Null <= cur < |nodes|
    requires Threaded(nodes, cur, succ)
    ensures forall j :: 0 <= j < |Inorder(nodes, cur)| ==>
      0 <= Inorder(nodes, cur)[j] < |nodes| &&
      (nodes[Inorder(nodes, cur)[j]].isThreaded ==>
         nodes[Inorder(nodes, cur)[j]].right == (Inorder(nodes, cur) + [succ])[j + 1])
    decreases Rank(nodes, cur)
  {
    if cur != Null {
      var l, r := nodes[cur].left, nodes[cur].GetRight();
      ThreadsAreSuccessors(nodes, l, cur);
      ThreadsAreSuccessors(nodes, r, succ);
      var order := Inorder(nodes, cur);
      var lo, ro := Inorder(nodes, l), Inorder(nodes, r);
      assert order == lo + [cur] + ro;
      forall j | 0 <= j < |order|
        ensures 0 <= order[j] < |nodes| &&
          (nodes[order[j]].isThreaded ==> nodes[order[j]].right == (order + [succ])[j + 1])
      {
        if j < |lo| {
          assert order[j] == lo[j] && (order + [succ])[j + 1] == (lo + [cur])[j + 1];
        } else if j == |lo| {
          assert order[j] == cur;
          if nodes[cur].isThreaded {
            assert ro == [];
          }
        } else {
          var j' := j - |lo| - 1;
          assert order[j] == ro[j'] && (order + [succ])[j + 1] == (ro + [succ])[j' + 1];
        }
      }
    }
  }

  /**
   * The pairs export of a well-formed tree: the in-order keys, each paired
   * with the next key when its node is threaded and not the maximum, and with
   * `noElement` otherwise.
   */
  lemma PairsFollowThreads(nodes: seq<Node>, root: int, noElement: int)
    requires WellFormed(nodes, root)
    ensures |SubtreePairs(nodes, root, noElement)| == |Inorder(nodes, root)| == |SubtreeToVector(nodes, root)| == |nodes|
    ensures forall j :: 0 <= j < |nodes| ==> 0 <= Inorder(nodes, root)[j] < |nodes|
    ensures forall j :: 0 <= j < |nodes| ==> SubtreePairs(nodes, root, noElement)[j].0 == SubtreeToVector(nodes, root)[j]
    ensures forall j :: 0 <= j < |nodes| ==>
      SubtreePairs(nodes, root, noElement)[j].1
        == (if nodes[Inorder(nodes, root)[j]].isThreaded && j + 1 < |nodes| then SubtreeToVector(nodes, root)[j + 1] else noElement)
  {
    PairsInorder(nodes, root, noElement);
    ThreadsAreSuccessors(nodes, root, Null);
    InorderFacts(nodes, root);
    var order := Inorder(nodes, root);
    forall k | 0 <= k < |order| ensures (order + [Null])[k] == order[k] {
    }
  }

  /** In a well-formed tree the in-order export lists exactly the keys held by the arena's nodes. */
  lemma KeysListed(nodes: seq<Node>, root: int)
    requires WellFormed(nodes, root)
    ensures Elems(SubtreeToVector(nodes, root)) == KeySet(nodes)
  {
    NodeKeys(nodes, root);
    InorderFacts(nodes, root);
    var order, keys := Inorder(nodes, root), SubtreeToVector(nodes, root);
    forall x | x in keys ensures x in KeySet(nodes) {
      var j :| 0 <= j < |keys| && keys[j] == x;
      assert nodes[order[j]].key == x;
    }
  }
}
