/**
 * Strictly ascending sequences of keys: the shape of an in-order export of
 * the set, and what happens to such a sequence when one key is put into it.
 */
module Sorted {

  /** Every key is smaller than every key after it (so no key repeats). */
  ghost predicate Ascending(s: seq<int>) {
    forall i, j :: 0 <= i < j < |s| ==> s[i] < s[j]
  }

  /** The keys of a sequence, as a set. */
  ghost function Elems(s: seq<int>): set<int> {
    set x | x in s
  }

  /** The keys of `s` below `k`, in their order in `s`. */
  ghost function Less(s: seq<int>, k: int): (r: seq<int>)
    ensures |r| <= |s|
  {
    if s == [] then [] else (if s[0] < k then [s[0]] else []) + Less(s[1..], k)
  }

  /** The keys of `s` above `k`, in their order in `s`. */
  ghost function Greater(s: seq<int>, k: int): (r: seq<int>)
    ensures |r| <= |s|
  {
    if s == [] then [] else (if k < s[0] then [s[0]] else []) + Greater(s[1..], k)
  }

  /** `k` placed among the keys of `s`: what an ordered export looks like after inserting `k`. */
  ghost function InsertSorted(s: seq<int>, k: int): (r: seq<int>)
    ensures Elems(r) == Elems(s) + {k}
  {
    LessMembers(s, k);
    var r := Less(s, k) + [k] + Greater(s, k);
    assert forall x :: x in r <==> x in s || x == k;
    r
  }

  /** Less and Greater keep exactly the keys on their side of `k`. */
  lemma {:induction false} LessMembers(s: seq<int>, k: int)
    ensures forall x :: x in Less(s, k) <==> x in s && x < k
    ensures forall x :: x in Greater(s, k) <==> x in s && k < x
  {
    if s != [] {
      LessMembers(s[1..], k);
      assert s == [s[0]] + s[1..];
    }
  }

  lemma {:induction false} LessConcat(a: seq<int>, b: seq<int>, k: int)
    ensures Less(a + b, k) == Less(a, k) + Less(b, k)
    ensures Greater(a + b, k) == Greater(a, k) + Greater(b, k)
  {
    if a != [] {
      assert (a + b)[0] == a[0];
      assert (a + b)[1..] == a[1..] + b;
      LessConcat(a[1..], b, k);
    } else {
      assert a + b == b;
    }
  }

  /** A sequence wholly below `k` keeps all of itself under Less and nothing under Greater. */
  lemma {:induction false} AllBelow(s: seq<int>, k: int)
    requires forall i :: 0 <= i < |s| ==> s[i] < k
    ensures Less(s, k) == s && Greater(s, k) == []
  {
    if s != [] {
      AllBelow(s[1..], k);
      assert s == [s[0]] + s[1..];
    }
  }

  /** A sequence wholly above `k` keeps all of itself under Greater and nothing under Less. */
  lemma {:induction false} AllAbove(s: seq<int>, k: int)
    requires forall i :: 0 <= i < |s| ==> k < s[i]
    ensures Less(s, k) == [] && Greater(s, k) == s
  {
    if s != [] {
      AllAbove(s[1..], k);
      assert s == [s[0]] + s[1..];
    }
  }

  lemma {:induction false} LessGreaterLength(s: seq<int>, k: int)
    requires k !in s
    ensures |Less(s, k)| + |Greater(s, k)| == |s|
  {
    if s != [] {
      assert s == [s[0]] + s[1..];
      LessGreaterLength(s[1..], k);
    }
  }

  lemma AscendingTail(s: seq<int>)
    requires Ascending(s) && s != []
    ensures Ascending(s[1..]) && forall x :: x in s[1..] ==> s[0] < x
  {
    forall x | x in s[1..] ensures s[0] < x {
      var i :| 0 <= i < |s[1..]| && s[1..][i] == x;
      assert s[1..][i] == s[i + 1];
    }
  }

  /** A key below every key of an ascending sequence can be put in front of it. */
  lemma AscendingCons(x: int, t: seq<int>)
    requires Ascending(t) && forall y :: y in t ==> x < y
    ensures Ascending([x] + t)
  {
    var s := [x] + t;
    forall i, j | 0 <= i < j < |s| ensures s[i] < s[j] {
      assert s[j] == t[j - 1];
      if i > 0 {
        assert s[i] == t[i - 1];
      } else {
        assert t[j - 1] in t;
      }
    }
  }

  lemma {:induction false} LessAscending(s: seq<int>, k: int)
    requires Ascending(s)
    ensures Ascending(Less(s, k)) && Ascending(Greater(s, k))
  {
    if s != [] {
      AscendingTail(s);
      LessAscending(s[1..], k);
      LessMembers(s[1..], k);
      var lt, gt := Less(s[1..], k), Greater(s[1..], k);
      if s[0] < k {
        AscendingCons(s[0], lt);
        assert Less(s, k) == [s[0]] + lt;
      } else {
        assert Less(s, k) == lt;
      }
      if k < s[0] {
        AscendingCons(s[0], gt);
        assert Greater(s, k) == [s[0]] + gt;
      } else {
        assert Greater(s, k) == gt;
      }
    }
  }

  /** The pieces of an ascending sequence split around one key. */
  lemma AscendingSplit(a: seq<int>, x: int, b: seq<int>)
    requires Ascending(a + [x] + b)
    ensures Ascending(a) && Ascending(b)
    ensures forall i :: 0 <= i < |a| ==> a[i] < x
    ensures forall i :: 0 <= i < |b| ==> x < b[i]
    ensures forall y :: y in a ==> y < x
    ensures forall y :: y in b ==> x < y
  {
    var s := a + [x] + b;
    assert forall i :: 0 <= i < |a| ==> s[i] == a[i];
    assert forall i :: 0 <= i < |b| ==> s[|a| + 1 + i] == b[i];
    assert s[|a|] == x;
  }

  /** Ascending pieces, one side below `x` and the other above, join into an ascending sequence. */
  lemma AscendingJoin(a: seq<int>, x: int, b: seq<int>)
    requires Ascending(a) && Ascending(b)
    requires forall y :: y in a ==> y < x
    requires forall y :: y in b ==> x < y
    ensures Ascending(a + [x] + b)
  {
    var s := a + [x] + b;
    forall i, j | 0 <= i < j < |s| ensures s[i] < s[j] {
      if j < |a| {
      } else if j == |a| {
        assert s[i] in a;
      } else if i < |a| {
        assert s[i] in a && s[j] in b;
      } else if i == |a| {
        assert s[j] in b;
      } else {
        assert s[i] == b[i - |a| - 1] && s[j] == b[j - |a| - 1];
      }
    }
  }

  /** Inserting a key keeps a sequence ascending, adds one entry when the key is new and changes nothing otherwise. */
  lemma InsertSortedAscending(s: seq<int>, k: int)
    requires Ascending(s)
    ensures Ascending(InsertSorted(s, k))
    ensures k !in s ==> |InsertSorted(s, k)| == |s| + 1
    ensures k in s ==> InsertSorted(s, k) == s
  {
    LessAscending(s, k);
    LessMembers(s, k);
    AscendingJoin(Less(s, k), k, Greater(s, k));
    if k !in s {
      LessGreaterLength(s, k);
    } else {
      InsertSortedPresent(s, k);
    }
  }

  lemma InsertSortedPresent(s: seq<int>, k: int)
    requires Ascending(s) && k in s
    ensures InsertSorted(s, k) == s
  {
    var i :| 0 <= i < |s| && s[i] == k;
    var a, b := s[..i], s[i + 1..];
    assert s == a + [k] + b;
    AscendingSplit(a, k, b);
    InsertSortedAround(a, k, b);
  }

  lemma InsertSortedAround(a: seq<int>, k: int, b: seq<int>)
    requires forall i :: 0 <= i < |a| ==> a[i] < k
    requires forall i :: 0 <= i < |b| ==> k < b[i]
    ensures InsertSorted(a + [k] + b, k) == a + [k] + b
  {
    assert Less(a + [k] + b, k) == a by {
      LessConcat(a + [k], b, k);
      LessConcat(a, [k], k);
      AllBelow(a, k);
      AllAbove(b, k);
      assert Less([k], k) == [];
    }
    assert Greater(a + [k] + b, k) == b by {
      LessConcat(a + [k], b, k);
      LessConcat(a, [k], k);
      AllBelow(a, k);
      AllAbove(b, k);
      assert Greater([k], k) == [];
    }
  }

  /** Less and Greater of a sequence split around one entry, piece by piece. */
  lemma LessSplit(a: seq<int>, x: int, b: seq<int>, k: int)
    ensures Less(a + [x] + b, k) == Less(a, k) + Less([x], k) + Less(b, k)
    ensures Greater(a + [x] + b, k) == Greater(a, k) + Greater([x], k) + Greater(b, k)
  {
    LessConcat(a + [x], b, k);
    LessConcat(a, [x], k);
  }

  /** Splitting `a + [x] + b` at a key below `x` and below all of `b`. */
  lemma LessSplitLeft(a: seq<int>, x: int, b: seq<int>, k: int)
    requires forall i :: 0 <= i < |b| ==> x < b[i]
    requires k < x
    ensures Less(a + [x] + b, k) == Less(a, k)
    ensures Greater(a + [x] + b, k) == Greater(a, k) + [x] + b
  {
    LessSplit(a, x, b, k);
    AllAbove(b, k);
    AllAbove([x], k);
    assert Less(a, k) + [] + [] == Less(a, k);
  }

  /** Splitting `a + [x] + b` at a key above `x` and above all of `a`. */
  lemma LessSplitRight(a: seq<int>, x: int, b: seq<int>, k: int)
    requires forall i :: 0 <= i < |a| ==> a[i] < x
    requires x < k
    ensures Less(a + [x] + b, k) == a + [x] + Less(b, k)
    ensures Greater(a + [x] + b, k) == Greater(b, k)
  {
    LessSplit(a, x, b, k);
    AllBelow(a, k);
    AllBelow([x], k);
    assert [] + [] + Greater(b, k) == Greater(b, k);
  }

  lemma Regroup(p: seq<int>, q: seq<int>, r: seq<int>, t: seq<int>)
    ensures p + (q + r) + t == p + q + (r + t)
  {
  }

  /** Inserting below the middle key of `a + [x] + b` only rearranges `a`. */
  lemma InsertSortedLeft(a: seq<int>, x: int, b: seq<int>, k: int)
    requires forall i :: 0 <= i < |b| ==> x < b[i]
    requires k < x
    ensures InsertSorted(a + [x] + b, k) == InsertSorted(a, k) + [x] + b
  {
    LessSplitLeft(a, x, b, k);
    Regroup(Less(a, k) + [k], Greater(a, k), [x], b);
  }

  /** Inserting above the middle key of `a + [x] + b` only rearranges `b`. */
  lemma InsertSortedRight(a: seq<int>, x: int, b: seq<int>, k: int)
    requires forall i :: 0 <= i < |a| ==> a[i] < x
    requires x < k
    ensures InsertSorted(a + [x] + b, k) == a + [x] + InsertSorted(b, k)
  {
    LessSplitRight(a, x, b, k);
    Regroup(a + [x], Less(b, k), [k], Greater(b, k));
  }

  /** An ascending sequence holds as many distinct keys as it has entries. */
  lemma {:induction false} AscendingCard(s: seq<int>)
    requires Ascending(s)
    ensures |Elems(s)| == |s|
  {
    if s != [] {
      AscendingTail(s);
      AscendingCard(s[1..]);
      assert Elems(s) == {s[0]} + Elems(s[1..]);
      assert s[0] !in Elems(s[1..]);
    }
  }

  /** The first key of an ascending sequence is its least. */
  lemma AscendingMin(s: seq<int>, x: int)
    requires Ascending(s) && x in s
    ensures s[0] <= x
  {
    var i :| 0 <= i < |s| && s[i] == x;
  }

  /** Two ascending sequences with the same keys are the same sequence. */
  lemma {:induction false} AscendingUnique(a: seq<int>, b: seq<int>)
    requires Ascending(a) && Ascending(b) && Elems(a) == Elems(b)
    ensures a == b
  {
    AscendingCard(a);
    AscendingCard(b);
    if a != [] {
      assert a[0] in Elems(b) && b[0] in Elems(a);
      AscendingMin(a, b[0]);
      AscendingMin(b, a[0]);
      AscendingTail(a);
      AscendingTail(b);
      assert a == [a[0]] + a[1..] && b == [b[0]] + b[1..];
      assert Elems(a[1..]) == Elems(a) - {a[0]};
      assert Elems(b[1..]) == Elems(b) - {b[0]};
      AscendingUnique(a[1..], b[1..]);
    }
  }

  /** Appending a key adds it to the keys, and adds one to their number exactly when it is new. */
  lemma ElemsSnoc(s: seq<int>, x: int)
    ensures Elems(s + [x]) == Elems(s) + {x}
    ensures |Elems(s + [x])| == |Elems(s)| + (if x in Elems(s) then 0 else 1)
  {
    assert Elems(s + [x]) == Elems(s) + {x};
  }
}
