/**
 * The set class: a right-threaded binary search tree over `int` keys, with
 * its iterator. The tree lives in the arena `nodes` (see module Arena); the
 * pure functions of modules Insertion and Iteration are the specifications the
 * methods here are proved against.
 */
module ThreadedSets {
  import opened Sorted
  import opened Arena
  import opened Insertion
  import opened Iteration

  /** The one error the set reports: dereferencing an iterator that denotes no element. */
  datatype Error = OutOfRange

  datatype Result<T> = Ok(value: T) | Err(error: Error)

  class ThreadedSet {
    var nodes: seq<Node>
    var root: int
    var size: int

    /** The tree is well formed and `size` counts its nodes. */
    ghost predicate Valid()
      reads this
    {
      WellFormed(nodes, root) && size == |nodes|
    }

    /** The keys in the set. */
    ghost function Contents(): set<int>
      reads this
    {
      KeySet(nodes)
    }

    /** The nodes of the tree in in-order sequence. */
    ghost function Order(): seq<int>
      reads this
      requires Valid()
    {
      Inorder(nodes, root)
    }

    /** An empty set: no root, size 0. */
    constructor ()
      ensures Valid() && Contents() == {} && size == 0
    {
      nodes := [];
      root := Null;
      size := 0;
    }

    /**
     * The copy constructor: starts empty and re-inserts the keys of `other`
     * in pre-order, so that the copy gets threads of its own.
     */
    constructor Copy(other: ThreadedSet)
      requires other.Valid()
      ensures Valid() && Contents() == other.Contents()
      ensures size == other.size && ToVector() == other.ToVector()
    {
      nodes := [];
      root := Null;
      size := 0;
      new;
      CopyFrom(other, other.root);
      KeysListed(nodes, root);
      KeysListed(other.nodes, other.root);
      AscendingUnique(SubtreeToVector(nodes, root), SubtreeToVector(other.nodes, other.root));
    }

    /** Inserts the keys of the subtree of `other` rooted at `cur`: the node, then its left and right subtrees. */
    method CopyFrom(other: ThreadedSet, cur: int)
      requires Valid() && other.Valid() && other != this
      requires Null <= cur < |other.nodes|
      modifies this
      ensures Valid() && Contents() == old(Contents()) + Elems(SubtreeToVector(other.nodes, cur))
      decreases Rank(other.nodes, cur)
    {
      if cur != Null {
        var nd := other.nodes[cur];
        var l, r := nd.left, nd.GetRight();
        ghost var lk, rk := SubtreeToVector(other.nodes, l), SubtreeToVector(other.nodes, r);
        assert Elems(SubtreeToVector(other.nodes, cur)) == Elems(lk) + {nd.key} + Elems(rk) by {
          assert SubtreeToVector(other.nodes, cur) == lk + [nd.key] + rk;
        }
        Insert(nd.key);
        CopyFrom(other, l);
        CopyFrom(other, r);
      }
    }

    /** The number of keys in the set. */
    function Size(): (r: int)
      reads this
      requires Valid()
      ensures r == |Contents()|
    {
      KeysListed(nodes, root);
      AscendingCard(SubtreeToVector(nodes, root));
      size
    }

    /** Search from the root, never following a thread. */
    function Contains(key: int): (r: bool)
      reads this
      requires Valid()
      ensures r <==> key in Contents()
    {
      KeysListed(nodes, root);
      ContainsListed(nodes, root, key);
      SubtreeContains(nodes, root, key)
    }

    /** `set[key]`: whether the key is in the set. */
    function Subscript(key: int): (r: bool)
      reads this
      requires Valid()
      ensures r <==> key in Contents()
    {
      Contains(key)
    }

    /**
     * Inserts `key`: the loop walks down from the root as a search does and
     * returns at an equal key; otherwise a new node is linked below the node
     * where the walk fell out of the tree.
     */
    method Insert(key: int)
      requires Valid()
      modifies this
      ensures Valid() && root == 0
      ensures Contents() == old(Contents()) + {key}
      ensures key in old(Contents()) ==> nodes == old(nodes) && size == old(size)
      ensures key !in old(Contents()) ==> size == old(size) + 1
      ensures nodes == Inserted(old(nodes), old(root), key)
      ensures ToVector() == InsertSorted(old(ToVector()), key)
    {
      InsertPreservesWellFormed(nodes, root, key);
      var prev, cur := Null, root;
      while cur != Null
        invariant Null <= cur < |nodes| && Null <= prev < |nodes|
        invariant Locate(nodes, cur, prev, key) == Locate(nodes, root, Null, key)
        decreases Rank(nodes, cur)
      {
        var nd := nodes[cur];
        if key < nd.key {
          prev := cur;
          cur := nd.left;
        } else if nd.key < key {
          prev := cur;
          cur := nd.GetRight();
        } else {
          return;
        }
      }
      if prev == Null {
        root := |nodes|;
      }
      nodes := LinkNode(nodes, prev, key);
      size := size + 1;
    }

    /** The keys in ascending order. */
    function ToVector(): (r: seq<int>)
      reads this
      requires Valid()
      ensures Ascending(r) && |r| == size && Elems(r) == Contents()
    {
      KeysListed(nodes, root);
      SubtreeToVector(nodes, root)
    }

    /**
     * The keys in ascending order, each paired with the key its node is
     * threaded to (the next key), or with `noElement` when the node has a
     * real right child or is the maximum.
     */
    function ToPairs(noElement: int): (r: seq<(int, int)>)
      reads this
      requires Valid()
      ensures |r| == size == |Order()|
      ensures forall j :: 0 <= j < |Order()| ==> 0 <= Order()[j] < |nodes|
      ensures forall j :: 0 <= j < |r| ==>
        r[j].0 == ToVector()[j] &&
        r[j].1 == (if nodes[Order()[j]].isThreaded && j + 1 < |r| then ToVector()[j + 1] else noElement)
    {
      PairsFollowThreads(nodes, root, noElement);
      assert ToVector() == SubtreeToVector(nodes, root) && Order() == Inorder(nodes, root);
      SubtreePairs(nodes, root, noElement)
    }

    /** An iterator at the node holding `key`, or the end iterator when there is none. */
    method Find(key: int) returns (it: Iterator)
      requires Valid()
      ensures fresh(it) && it.owner == this && it.Valid()
      ensures key in Contents() <==> it.ptr != Null
      ensures it.Deref() == if key in Contents() then Ok(key) else Err(OutOfRange)
    {
      KeysListed(nodes, root);
      ContainsListed(nodes, root, key);
      var cur := root;
      while cur != Null
        invariant Null <= cur < |nodes|
        invariant SubtreeContains(nodes, cur, key) == SubtreeContains(nodes, root, key)
        decreases Rank(nodes, cur)
      {
        if key < nodes[cur].key {
          cur := nodes[cur].left;
        } else if nodes[cur].key < key {
          cur := nodes[cur].GetRight();
        } else {
          it := new Iterator(this, cur);
          return;
        }
      }
      it := new Iterator(this, Null);
    }

    /** An iterator at the least key: the leftmost node, reached by following left links from the root. */
    method Begin() returns (it: Iterator)
      requires Valid()
      ensures fresh(it) && it.owner == this && it.Valid()
      ensures it.ptr == Leftmost(nodes, root)
      ensures size == 0 ==> it.ptr == Null
      ensures size > 0 ==> it.Deref() == Ok(ToVector()[0])
      ensures size > 0 ==> forall x :: x in Contents() ==> it.Deref().value <= x
    {
      if root == Null {
        it := new Iterator(this, Null);
        return;
      }
      LeftmostIsMinimum(nodes, root);
      var cur := root;
      while nodes[cur].left != Null
        invariant 0 <= cur < |nodes| && Leftmost(nodes, cur) == Leftmost(nodes, root)
        decreases Rank(nodes, cur)
      {
        cur := nodes[cur].left;
      }
      it := new Iterator(this, cur);
    }

    /** The iterator that denotes no element. */
    method End() returns (it: Iterator)
      requires Valid()
      ensures fresh(it) && it.owner == this && it.Valid()
      ensures it.ptr == Null && it.Deref() == Err(OutOfRange)
    {
      it := new Iterator(this, Null);
    }
  }

  /**
   * The arena after the new node for `key` is created at index |nodes| and
   * hooked in below `prev` (or made the root when `prev` is Null), with the
   * links set one at a time in the order the insert sets them.
   */
  method LinkNode(nodes: seq<Node>, prev: int, key: int) returns (a: seq<Node>)
    requires Null <= prev < |nodes|
    ensures prev == Null ==> a == nodes + [Node(key, true, Null, Null)]
    ensures prev != Null ==> a == Attach(nodes, prev, key)
  {
    // `new NODE(key)`, then the link updates of the case at hand, one by one.
    var n := |nodes|;
    var created := Node(key, false, Null, Null);
    a := nodes + [created];
    if prev == Null {
      a := a[n := a[n].(isThreaded := true)];
      a := a[n := a[n].(right := Null)];
      assert a == nodes + [Node(key, true, Null, Null)];
    } else if key < a[prev].key {
      ghost var p := nodes[prev].(left := n);
      a := a[prev := a[prev].(left := n)];
      AppendedUpdate(nodes, prev, p, created);
      a := a[n := a[n].(right := prev)];
      a := a[n := a[n].(isThreaded := true)];
      assert a == nodes[prev := p] + [Node(key, true, Null, prev)];
    } else {
      ghost var p := nodes[prev].(isThreaded := false);
      a := a[n := a[n].(isThreaded := true)];
      a := a[prev := a[prev].(isThreaded := false)];
      AppendedUpdate(nodes, prev, p, created.(isThreaded := true));
      a := a[n := a[n].(right := a[prev].GetRight())];
      AppendedReplace(nodes[prev := p], created.(isThreaded := true), Node(key, true, Null, nodes[prev].right));
      a := a[prev := a[prev].(right := n)];
      AppendedUpdate(nodes[prev := p], prev, p.(right := n), Node(key, true, Null, nodes[prev].right));
      assert a == nodes[prev := nodes[prev].(isThreaded := false, right := n)] + [Node(key, true, Null, nodes[prev].right)];
    }
  }

  /** Updating an entry of an arena before its last one commutes with appending that last one. */
  lemma AppendedUpdate(s: seq<Node>, i: int, v: Node, x: Node)
    requires 0 <= i < |s|
    ensures (s + [x])[i := v] == s[i := v] + [x]
  {
  }

  /** Replacing the last entry of an arena. */
  lemma AppendedReplace(s: seq<Node>, x: Node, y: Node)
    ensures (s + [x])[|s| := y] == s + [y]
  {
  }

  /** A position in a set: a node of its tree, or Null for the end. */
  class Iterator {
    const owner: ThreadedSet
    var ptr: int

    ghost predicate Valid()
      reads this, owner
    {
      owner.Valid() && Null <= ptr < |owner.nodes|
    }

    constructor (owner: ThreadedSet, ptr: int)
      requires owner.Valid() && Null <= ptr < |owner.nodes|
      ensures this.owner == owner && this.ptr == ptr && Valid()
    {
      this.owner := owner;
      this.ptr := ptr;
    }

    /** `*it`: the key at the iterator, an out-of-range error at the end. */
    function Deref(): (r: Result<int>)
      reads this, owner
      requires Valid()
      ensures ptr == Null <==> r == Err(OutOfRange)
      ensures r.Ok? ==> r.value in owner.Contents()
    {
      if ptr == Null then Err(OutOfRange) else Ok(owner.nodes[ptr].key)
    }

    /**
     * `it == other`: the two denote the same node. Iterators of one set are
     * equal exactly when they yield the same key (or both are at the end).
     */
    function Equals(other: Iterator): (r: bool)
      reads this, owner, other, other.owner
      requires Valid() && other.Valid()
      ensures r ==> Deref() == other.Deref()
      ensures owner == other.owner ==> (r <==> Deref() == other.Deref())
    {
      NodeKeys(owner.nodes, owner.root);
      ptr == other.ptr && (ptr == Null || owner == other.owner)
    }

    /** `it != other`: the two denote different nodes. */
    function NotEquals(other: Iterator): (r: bool)
      reads this, owner, other, other.owner
      requires Valid() && other.Valid()
      ensures !r ==> Deref() == other.Deref()
      ensures owner == other.owner ==> (r <==> Deref() != other.Deref())
    {
      NodeKeys(owner.nodes, owner.root);
      ptr != other.ptr || (ptr != Null && owner != other.owner)
    }

    /**
     * `++it`: nothing at the end; along the thread of a threaded node;
     * otherwise to the leftmost node of the real right subtree.
     */
    method Advance()
      requires Valid()
      modifies this
      ensures Valid() && ptr == Next(owner.nodes, old(ptr))
      ensures forall j :: 0 <= j < |owner.Order()| && old(ptr) == owner.Order()[j] ==>
        ptr == (owner.Order() + [Null])[j + 1]
    {
      NextFollowsInorder(owner.nodes, owner.root, Null);
      if ptr == Null {
        return;
      }
      var nd := owner.nodes[ptr];
      if nd.isThreaded {
        ptr := nd.GetThread();
      } else {
        ptr := nd.GetRight();
        while ptr != Null && owner.nodes[ptr].left != Null
          invariant Null <= ptr < |owner.nodes|
          invariant Leftmost(owner.nodes, ptr) == Leftmost(owner.nodes, nd.GetRight())
          decreases Rank(owner.nodes, ptr)
        {
          ptr := owner.nodes[ptr].left;
        }
      }
    }
  }

  /**
   * The loop `for (it = s.begin(); it != s.end(); ++it)` collecting `*it`:
   * it visits the keys in the order of `s.ToVector()` and stops after
   * `s.Size()` steps.
   */
  method Traverse(s: ThreadedSet) returns (visited: seq<int>)
    requires s.Valid()
    ensures visited == s.ToVector()
  {
    var e := s.End();
    var it := s.Begin();
    ghost var keys := s.ToVector();
    visited := [];
    ghost var steps: nat := 0;
    while it.NotEquals(e)
      invariant fresh(it) && it.owner == s && it.Valid()
      invariant e.owner == s && e.Valid() && e.ptr == Null
      invariant steps <= |s.nodes|
      invariant it.ptr == Advanced(s.nodes, Leftmost(s.nodes, s.root), steps)
      invariant visited == keys[..steps]
      decreases |s.nodes| - steps
    {
      IterationVisitsExport(s.nodes, s.root, steps);
      var k := it.Deref();
      assert k.value == keys[steps];
      assert keys[..steps + 1] == keys[..steps] + [keys[steps]];
      visited := visited + [k.value];
      it.Advance();
      steps := steps + 1;
    }
    IterationVisitsExport(s.nodes, s.root, steps);
    assert keys[..steps] == keys;
  }

  /**
   * A copy does not share nodes with its original: after copying, an insert
   * into the original shows only in the original and an insert into the
   * copy only in the copy.
   */
  method CopiesAreIndependent(s: ThreadedSet, a: int, b: int) returns (t: ThreadedSet)
    requires s.Valid()
    modifies s
    ensures fresh(t) && s.Valid() && t.Valid()
    ensures s.Contents() == old(s.Contents()) + {a}
    ensures t.Contents() == old(s.Contents()) + {b}
  {
    t := new ThreadedSet.Copy(s);
    s.Insert(a);
    t.Insert(b);
  }
}
