/**
 * What `insert` does to the arena, as a function of the old arena, and the
 * proof that it keeps the tree well formed and puts the key in order.
 */
module Insertion {
  import opened Sorted
  import opened Arena

  /** Where the descent for a key ends: at the node holding it, or below `parent`. */
  datatype Spot = Found(at: int) | Vacant(parent: int)

  /**
   * The descent of the insertion loop from `cur`, where `prev` is the node
   * last visited: left on a smaller key, right (never along a thread) on a
   * larger one, stopping at an equal key or at a missing child.
   */
  ghost function Locate(nodes: seq<Node>, cur: int, prev: int, key: int): (r: Spot)
    requires Linked(nodes) && Null <= cur < |nodes| && Null <= prev < |nodes|
    ensures r.Found? ==> 0 <= r.at < |nodes| && nodes[r.at].key == key
    ensures r.Vacant? ==> Null <= r.parent < |nodes|
    ensures r.Vacant? && cur != Null ==> r.parent != Null
    decreases Rank(nodes, cur)
  {
    if cur == Null then Vacant(prev)
    else if key < nodes[cur].key then Locate(nodes, nodes[cur].left, cur, key)
    else if nodes[cur].key < key then Locate(nodes, nodes[cur].GetRight(), cur, key)
    else Found(cur)
  }

  /**
   * A new node for `key`, appended at index |nodes| and linked below `parent`:
   * as its left child, threaded to the parent; or as its right child, taking
   * over the parent's thread while the parent stops being threaded.
   */
  ghost function Attach(nodes: seq<Node>, parent: int, key: int): seq<Node>
    requires 0 <= parent < |nodes|
  {
    var n := |nodes|;
    if key < nodes[parent].key then
      nodes[parent := nodes[parent].(left := n)] + [Node(key, true, Null, parent)]
    else
      nodes[parent := nodes[parent].(isThreaded := false, right := n)] + [Node(key, true, Null, nodes[parent].right)]
  }

  /** The arena after inserting `key` into the set rooted at `root`. */
  ghost function Inserted(nodes: seq<Node>, root: int, key: int): seq<Node>
    requires Linked(nodes) && Null <= root < |nodes|
  {
    match Locate(nodes, root, Null, key)
    case Found(_) => nodes
    case Vacant(p) =>
      if p == Null then nodes + [Node(key, true, Null, Null)] else Attach(nodes, p, key)
  }

  /** The descent finds a node exactly when the search does. */
  lemma {:induction false} LocateAgreesWithSearch(nodes: seq<Node>, cur: int, prev: int, key: int)
    requires Linked(nodes) && Null <= cur < |nodes| && Null <= prev < |nodes|
    ensures Locate(nodes, cur, prev, key).Found? <==> SubtreeContains(nodes, cur, key)
    decreases Rank(nodes, cur)
  {
    if cur != Null {
      LocateAgreesWithSearch(nodes, nodes[cur].left, cur, key);
      LocateAgreesWithSearch(nodes, nodes[cur].GetRight(), cur, key);
    }
  }

  /** The node a descent stops below lies in the subtree it started from (or is `prev` if that is empty). */
  lemma {:induction false} LocateWithin(nodes: seq<Node>, cur: int, prev: int, key: int)
    requires Linked(nodes) && Null <= cur < |nodes| && Null <= prev < |nodes|
    requires Locate(nodes, cur, prev, key).Vacant?
    ensures var p := Locate(nodes, cur, prev, key).parent;
      (cur == Null ==> p == prev) && (cur != Null ==> p in Inorder(nodes, cur) && cur <= p)
    decreases Rank(nodes, cur)
  {
    if cur != Null {
      if key < nodes[cur].key {
        LocateWithin(nodes, nodes[cur].left, cur, key);
      } else if nodes[cur].key < key {
        LocateWithin(nodes, nodes[cur].GetRight(), cur, key);
      }
      InorderMembers(nodes, cur);
    }
  }

  /** Attaching a node below any existing node keeps every link sound. */
  lemma AttachLinked(nodes: seq<Node>, parent: int, key: int)
    requires Linked(nodes) && 0 <= parent < |nodes|
    ensures Linked(Attach(nodes, parent, key))
    ensures |Attach(nodes, parent, key)| == |nodes| + 1
    ensures forall i :: 0 <= i < |nodes| ==> Attach(nodes, parent, key)[i].key == nodes[i].key
  {
  }

  /**
   * Changing nodes outside a subtree (and appending) leaves the subtree's
   * walks and threads as they were.
   */
  lemma {:induction false} Frame(nodes: seq<Node>, after: seq<Node>, cur: int, p: int, succ: int)
    requires Linked(nodes) && Linked(after) && |nodes| <= |after| && Null <= cur < |nodes|
    requires forall i :: 0 <= i < |nodes| && i != p ==> after[i] == nodes[i]
    requires p !in Inorder(nodes, cur)
    ensures SubtreeToVector(after, cur) == SubtreeToVector(nodes, cur)
    ensures Inorder(after, cur) == Inorder(nodes, cur)
    ensures Threaded(after, cur, succ) == Threaded(nodes, cur, succ)
    decreases Rank(nodes, cur)
  {
    if cur != Null {
      assert after[cur] == nodes[cur];
      Frame(nodes, after, nodes[cur].left, p, cur);
      Frame(nodes, after, nodes[cur].GetRight(), p, succ);
    }
  }

  /** What attaching below `p` does to the subtree at `cur` whose in-order successor is `succ`. */
  ghost predicate AttachedWell(nodes: seq<Node>, cur: int, key: int, p: int, succ: int)
    requires Linked(nodes) && 0 <= cur < |nodes| && 0 <= p < |nodes|
  {
    AttachLinked(nodes, p, key);
    var after := Attach(nodes, p, key);
    && SubtreeToVector(after, cur) == InsertSorted(SubtreeToVector(nodes, cur), key)
    && Threaded(after, cur, succ)
    && (forall x :: x in Inorder(after, cur) <==> x in Inorder(nodes, cur) || x == |nodes|)
  }

  /** The descent stops at `cur` because its left child is missing: the new node becomes that child. */
  lemma AttachAsLeft(nodes: seq<Node>, cur: int, key: int, succ: int)
    requires Linked(nodes) && 0 <= cur < |nodes|
    requires nodes[cur].left == Null && key < nodes[cur].key
    requires Ascending(SubtreeToVector(nodes, cur)) && Threaded(nodes, cur, succ)
    ensures AttachedWell(nodes, cur, key, cur, succ)
  {
    AttachLinked(nodes, cur, key);
    var after := Attach(nodes, cur, key);
    var n := |nodes|;
    var nd := nodes[cur];
    var r := nd.GetRight();
    var rk := SubtreeToVector(nodes, r);
    assert SubtreeToVector(nodes, cur) == [] + [nd.key] + rk;
    AscendingSplit([], nd.key, rk);
    assert forall i :: 0 <= i < n && i != cur ==> after[i] == nodes[i];
    assert after[cur] == nd.(left := n) && after[n] == Node(key, true, Null, cur);
    InorderMembers(nodes, r);
    Frame(nodes, after, r, cur, succ);
    assert after[n].left == Null && after[n].GetRight() == Null;
    assert SubtreeToVector(after, n) == [key];
    assert Inorder(after, n) == [n];
    assert Threaded(after, n, cur);
    assert after[cur].left == n && after[cur].GetRight() == r;
    assert SubtreeToVector(after, cur) == [key] + [nd.key] + rk;
    assert Inorder(nodes, cur) == [cur] + Inorder(nodes, r);
    assert Inorder(after, cur) == [n] + [cur] + Inorder(nodes, r);
    InsertSortedLeft([], nd.key, rk, key);
  }

  /** The descent stops at `cur` because it is threaded: the new node becomes its right child and takes over the thread. */
  lemma AttachAsRight(nodes: seq<Node>, cur: int, key: int, succ: int)
    requires Linked(nodes) && 0 <= cur < |nodes|
    requires nodes[cur].isThreaded && nodes[cur].key < key
    requires Ascending(SubtreeToVector(nodes, cur)) && Threaded(nodes, cur, succ)
    ensures AttachedWell(nodes, cur, key, cur, succ)
  {
    AttachLinked(nodes, cur, key);
    var after := Attach(nodes, cur, key);
    var n := |nodes|;
    var nd := nodes[cur];
    var l := nd.left;
    var lk := SubtreeToVector(nodes, l);
    assert SubtreeToVector(nodes, cur) == lk + [nd.key] + [];
    AscendingSplit(lk, nd.key, []);
    assert forall i :: 0 <= i < n && i != cur ==> after[i] == nodes[i];
    assert after[cur] == nd.(isThreaded := false, right := n) && after[n] == Node(key, true, Null, succ);
    InorderMembers(nodes, l);
    Frame(nodes, after, l, cur, cur);
    assert after[n].left == Null && after[n].GetRight() == Null;
    assert SubtreeToVector(after, n) == [key];
    assert Inorder(after, n) == [n];
    assert Threaded(after, n, succ);
    assert after[cur].left == l && after[cur].GetRight() == n;
    assert SubtreeToVector(after, cur) == lk + [nd.key] + [key];
    assert Inorder(after, cur) == Inorder(nodes, cur) + [n];
    InsertSortedRight(lk, nd.key, [], key);
  }

  /**
   * The part of the step to the left that concerns `cur` alone: when its left
   * subtree has taken the new node and its right subtree is untouched, `cur`
   * has taken it too.
   */
  lemma LiftLeft(nodes: seq<Node>, after: seq<Node>, cur: int, key: int, succ: int)
    requires Linked(nodes) && Linked(after) && |after| == |nodes| + 1 && 0 <= cur < |nodes|
    requires after[cur] == nodes[cur] && key < nodes[cur].key && nodes[cur].left != Null
    requires Ascending(SubtreeToVector(nodes, cur)) && Threaded(nodes, cur, succ)
    requires SubtreeToVector(after, nodes[cur].left) == InsertSorted(SubtreeToVector(nodes, nodes[cur].left), key)
    requires Threaded(after, nodes[cur].left, cur)
    requires forall x :: x in Inorder(after, nodes[cur].left) <==> x in Inorder(nodes, nodes[cur].left) || x == |nodes|
    requires SubtreeToVector(after, nodes[cur].GetRight()) == SubtreeToVector(nodes, nodes[cur].GetRight())
    requires Inorder(after, nodes[cur].GetRight()) == Inorder(nodes, nodes[cur].GetRight())
    requires Threaded(after, nodes[cur].GetRight(), succ) == Threaded(nodes, nodes[cur].GetRight(), succ)
    ensures SubtreeToVector(after, cur) == InsertSorted(SubtreeToVector(nodes, cur), key)
    ensures Threaded(after, cur, succ)
    ensures forall x :: x in Inorder(after, cur) <==> x in Inorder(nodes, cur) || x == |nodes|
  {
    var nd := nodes[cur];
    var l, r := nd.left, nd.GetRight();
    var lk, rk := SubtreeToVector(nodes, l), SubtreeToVector(nodes, r);
    assert SubtreeToVector(nodes, cur) == lk + [nd.key] + rk;
    AscendingSplit(lk, nd.key, rk);
    assert after[cur].left == l && after[cur].GetRight() == r;
    assert SubtreeToVector(after, cur) == SubtreeToVector(after, l) + [nd.key] + rk;
    assert Inorder(nodes, cur) == Inorder(nodes, l) + [cur] + Inorder(nodes, r);
    assert Inorder(after, cur) == Inorder(after, l) + [cur] + Inorder(nodes, r);
    InsertSortedLeft(lk, nd.key, rk, key);
  }

  /** The mirror image of LiftLeft, for a step to the right. */
  lemma LiftRight(nodes: seq<Node>, after: seq<Node>, cur: int, key: int, succ: int)
    requires Linked(nodes) && Linked(after) && |after| == |nodes| + 1 && 0 <= cur < |nodes|
    requires after[cur] == nodes[cur] && nodes[cur].key < key && nodes[cur].GetRight() != Null
    requires Ascending(SubtreeToVector(nodes, cur)) && Threaded(nodes, cur, succ)
    requires SubtreeToVector(after, nodes[cur].GetRight()) == InsertSorted(SubtreeToVector(nodes, nodes[cur].GetRight()), key)
    requires Threaded(after, nodes[cur].GetRight(), succ)
    requires forall x :: x in Inorder(after, nodes[cur].GetRight()) <==> x in Inorder(nodes, nodes[cur].GetRight()) || x == |nodes|
    requires SubtreeToVector(after, nodes[cur].left) == SubtreeToVector(nodes, nodes[cur].left)
    requires Inorder(after, nodes[cur].left) == Inorder(nodes, nodes[cur].left)
    requires Threaded(after, nodes[cur].left, cur) == Threaded(nodes, nodes[cur].left, cur)
    ensures SubtreeToVector(after, cur) == InsertSorted(SubtreeToVector(nodes, cur), key)
    ensures Threaded(after, cur, succ)
    ensures forall x :: x in Inorder(after, cur) <==> x in Inorder(nodes, cur) || x == |nodes|
  {
    var nd := nodes[cur];
    var l, r := nd.left, nd.GetRight();
    var lk, rk := SubtreeToVector(nodes, l), SubtreeToVector(nodes, r);
    assert SubtreeToVector(nodes, cur) == lk + [nd.key] + rk;
    AscendingSplit(lk, nd.key, rk);
    assert after[cur].left == l && after[cur].GetRight() == r;
    assert SubtreeToVector(after, cur) == lk + [nd.key] + SubtreeToVector(after, r);
    assert Inorder(nodes, cur) == Inorder(nodes, l) + [cur] + Inorder(nodes, r);
    assert Inorder(after, cur) == Inorder(nodes, l) + [cur] + Inorder(after, r);
    InsertSortedRight(lk, nd.key, rk, key);
  }

  /** In a subtree with an ascending export, no node lies in both the left and the right subtree. */
  lemma SubtreesApart(nodes: seq<Node>, cur: int, p: int)
    requires Linked(nodes) && 0 <= cur < |nodes| && Ascending(SubtreeToVector(nodes, cur))
    ensures p in Inorder(nodes, nodes[cur].left) ==> p !in Inorder(nodes, nodes[cur].GetRight())
  {
    var l, r := nodes[cur].left, nodes[cur].GetRight();
    var lk, rk := SubtreeToVector(nodes, l), SubtreeToVector(nodes, r);
    assert SubtreeToVector(nodes, cur) == lk + [nodes[cur].key] + rk;
    AscendingSplit(lk, nodes[cur].key, rk);
    InorderMembers(nodes, l);
    InorderMembers(nodes, r);
  }

  /** The descent passes `cur` to the left: what holds for the left subtree lifts to `cur`. */
  lemma AttachLeftStep(nodes: seq<Node>, cur: int, key: int, p: int, succ: int)
    requires Linked(nodes) && 0 <= cur < |nodes| && 0 <= p < |nodes| && p != cur
    requires key < nodes[cur].key && nodes[cur].left != Null && p in Inorder(nodes, nodes[cur].left)
    requires Ascending(SubtreeToVector(nodes, cur)) && Threaded(nodes, cur, succ)
    requires AttachedWell(nodes, nodes[cur].left, key, p, cur)
    ensures AttachedWell(nodes, cur, key, p, succ)
  {
    AttachLinked(nodes, p, key);
    var after := Attach(nodes, p, key);
    var r := nodes[cur].GetRight();
    SubtreesApart(nodes, cur, p);
    assert forall i :: 0 <= i < |nodes| && i != p ==> after[i] == nodes[i];
    Frame(nodes, after, r, p, succ);
    LiftLeft(nodes, after, cur, key, succ);
  }

  /** The descent passes `cur` to the right: what holds for the right subtree lifts to `cur`. */
  lemma AttachRightStep(nodes: seq<Node>, cur: int, key: int, p: int, succ: int)
    requires Linked(nodes) && 0 <= cur < |nodes| && 0 <= p < |nodes| && p != cur
    requires nodes[cur].key < key && nodes[cur].GetRight() != Null && p in Inorder(nodes, nodes[cur].GetRight())
    requires Ascending(SubtreeToVector(nodes, cur)) && Threaded(nodes, cur, succ)
    requires AttachedWell(nodes, nodes[cur].GetRight(), key, p, succ)
    ensures AttachedWell(nodes, cur, key, p, succ)
  {
    AttachLinked(nodes, p, key);
    var after := Attach(nodes, p, key);
    var l := nodes[cur].left;
    SubtreesApart(nodes, cur, p);
    assert forall i :: 0 <= i < |nodes| && i != p ==> after[i] == nodes[i];
    Frame(nodes, after, l, p, cur);
    LiftRight(nodes, after, cur, key, succ);
  }

  /**
   * Along the descent from `cur` to the vacant spot below `p`, attaching the
   * new node places its key in order, adds exactly the new node to the walk,
   * and keeps every thread pointing at the in-order successor.
   */
  lemma {:induction false} AttachAlongPath(nodes: seq<Node>, cur: int, prev: int, key: int, p: int, succ: int)
    requires Linked(nodes) && 0 <= cur < |nodes| && Null <= prev < |nodes|
    requires Locate(nodes, cur, prev, key) == Vacant(p)
    requires Ascending(SubtreeToVector(nodes, cur)) && Threaded(nodes, cur, succ)
    ensures 0 <= p < |nodes| && AttachedWell(nodes, cur, key, p, succ)
    decreases Rank(nodes, cur)
  {
    LocateWithin(nodes, cur, prev, key);
    var nd := nodes[cur];
    var l, r := nd.left, nd.GetRight();
    var lk, rk := SubtreeToVector(nodes, l), SubtreeToVector(nodes, r);
    assert SubtreeToVector(nodes, cur) == lk + [nd.key] + rk;
    AscendingSplit(lk, nd.key, rk);
    if key < nd.key {
      LocateWithin(nodes, l, cur, key);
      if cur == p {
        AttachAsLeft(nodes, cur, key, succ);
      } else {
        AttachAlongPath(nodes, l, cur, key, p, cur);
        AttachLeftStep(nodes, cur, key, p, succ);
      }
    } else {
      LocateWithin(nodes, r, cur, key);
      if cur == p {
        AttachAsRight(nodes, cur, key, succ);
      } else {
        AttachAlongPath(nodes, r, cur, key, p, succ);
        AttachRightStep(nodes, cur, key, p, succ);
      }
    }
  }

  /**
   * Inserting into a well-formed tree gives a well-formed tree rooted at node
   * 0 holding the old keys and `key`, whose in-order export is the old one
   * with the key put in order; the arena grows by one node when the key is
   * new and is unchanged otherwise.
   */
  lemma InsertPreservesWellFormed(nodes: seq<Node>, root: int, key: int)
    requires WellFormed(nodes, root)
    ensures WellFormed(Inserted(nodes, root, key), 0)
    ensures KeySet(Inserted(nodes, root, key)) == KeySet(nodes) + {key}
    ensures SubtreeToVector(Inserted(nodes, root, key), 0) == InsertSorted(SubtreeToVector(nodes, root), key)
    ensures key in KeySet(nodes) ==> Inserted(nodes, root, key) == nodes
    ensures key !in KeySet(nodes) ==> |Inserted(nodes, root, key)| == |nodes| + 1
  {
    var keys := SubtreeToVector(nodes, root);
    LocateAgreesWithSearch(nodes, root, Null, key);
    ContainsListed(nodes, root, key);
    InsertSortedAscending(keys, key);
    KeysListed(nodes, root);
    match Locate(nodes, root, Null, key)
    case Found(_) =>
    case Vacant(p) =>
      if p == Null {
        assert nodes == [];
        var after := Inserted(nodes, root, key);
        assert after == [Node(key, true, Null, Null)];
        assert SubtreeToVector(after, 0) == [key];
        assert Inorder(after, 0) == [0];
        KeysListed(after, 0);
      } else {
        AttachAlongPath(nodes, root, Null, key, p, Null);
        AttachLinked(nodes, p, key);
        var after := Attach(nodes, p, key);
        forall i | 0 <= i < |after| ensures i in Inorder(after, 0) {
          if i < |nodes| {
            assert i in Inorder(nodes, root);
          }
        }
        KeysListed(after, 0);
      }
  }

  /**
   * The arena after inserting `keys` one by one into an empty set: a
   * well-formed tree holding exactly those keys, with one node, and so one
   * unit of size, per distinct key.
   */
  ghost function Built(keys: seq<int>): (r: seq<Node>)
    ensures WellFormed(r, RootOf(r))
    ensures KeySet(r) == Elems(keys)
    ensures |r| == |Elems(keys)|
  {
    if keys == [] then []
    else
      var init, last := keys[..|keys| - 1], keys[|keys| - 1];
      var before := Built(init);
      BuiltStep(init, last, before);
      assert keys == init + [last];
      Inserted(before, RootOf(before), last)
  }

  /** One more insert into a tree whose nodes hold exactly the distinct earlier keys. */
  lemma BuiltStep(init: seq<int>, last: int, before: seq<Node>)
    requires WellFormed(before, RootOf(before))
    requires KeySet(before) == Elems(init) && |before| == |Elems(init)|
    ensures WellFormed(Inserted(before, RootOf(before), last), 0)
    ensures KeySet(Inserted(before, RootOf(before), last)) == Elems(init + [last])
    ensures |Inserted(before, RootOf(before), last)| == |Elems(init + [last])|
  {
    InsertPreservesWellFormed(before, RootOf(before), last);
    ElemsSnoc(init, last);
  }

  /** Inserting keys that are all present already leaves the arena exactly as it was. */
  lemma {:induction false} ReinsertingChangesNothing(keys: seq<int>, again: seq<int>)
    requires forall x :: x in again ==> x in keys
    ensures Built(keys + again) == Built(keys)
    decreases |again|
  {
    if again == [] {
      assert keys + again == keys;
    } else {
      var init, last := again[..|again| - 1], again[|again| - 1];
      assert (keys + again)[..|keys + again| - 1] == keys + init;
      assert (keys + again)[|keys + again| - 1] == last;
      assert forall x :: x in init ==> x in again;
      ReinsertingChangesNothing(keys, init);
      var before := Built(keys);
      assert last in KeySet(before);
      InsertPreservesWellFormed(before, RootOf(before), last);
    }
  }
}
