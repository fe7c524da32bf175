/** The pure part of the heap: how a sequence is read as a complete binary
    tree, the heap property, the invariants of the two sifting walks, and a
    reference sort that says what the ascending snapshot is. */
module HeapOrder {
  import opened Strings
  import opened Tasks

  // ---- Index arithmetic (getPLoc, getLCLoc, getRCLoc) ----

  /** getPLoc: `(i - 1) / 2`. Java's division truncates towards zero, so
      the root is its own parent. */
  function PLoc(i: nat): (p: nat)
    ensures i > 0 ==> p < i
    ensures i == 0 ==> p == 0
  {
    if i == 0 then 0 else (i - 1) / 2
  }

  /** getLCLoc: `2 * i + 1`, a child whose parent is `i`. */
  function LCLoc(i: nat): (c: nat)
    ensures c > i && PLoc(c) == i
  {
    2 * i + 1
  }

  /** getRCLoc: `2 * i + 2`, the other child whose parent is `i`. */
  function RCLoc(i: nat): (c: nat)
    ensures c > i && PLoc(c) == i
    ensures c == LCLoc(i) + 1
  {
    2 * i + 2
  }

  /** The nodes whose parent is `i` are exactly its left and right child. */
  lemma ChildrenOf(i: nat, c: nat)
    requires c > 0
    ensures PLoc(c) == i <==> c == LCLoc(i) || c == RCLoc(i)
  {
  }

  // ---- The heap property ----

  /** Every node other than the root is no smaller than its parent. */
  ghost predicate IsHeap(s: seq<Task>)
  {
    forall j :: 0 < j < |s| ==> LessEq(s[PLoc(j)], s[j])
  }

  /** The heap property as it is usually stated: every node is no larger
      than each child it has. */
  ghost predicate ParentsBelowChildren(s: seq<Task>)
  {
    forall i :: 0 <= i < |s| ==>
      (LCLoc(i) < |s| ==> LessEq(s[i], s[LCLoc(i)])) &&
      (RCLoc(i) < |s| ==> LessEq(s[i], s[RCLoc(i)]))
  }

  lemma IsHeapIffParentsBelowChildren(s: seq<Task>)
    ensures IsHeap(s) <==> ParentsBelowChildren(s)
  {
    if ParentsBelowChildren(s) {
      forall j | 0 < j < |s| ensures LessEq(s[PLoc(j)], s[j]) {
        ChildrenOf(PLoc(j), j);
      }
    }
  }

  /** In a heap the root is no larger than any element. */
  lemma {:induction false} RootIsMinimum(s: seq<Task>, k: nat)
    requires IsHeap(s) && k < |s|
    ensures LessEq(s[0], s[k])
    decreases k
  {
    if k == 0 {
      CompareReflexive(s[0]);
    } else {
      RootIsMinimum(s, PLoc(k));
      CompareTransitive(s[0], s[PLoc(k)], s[k]);
    }
  }

  lemma RootIsMinimumAll(s: seq<Task>)
    requires |s| > 0
    ensures IsHeap(s) ==> forall x :: x in s ==> LessEq(s[0], x)
  {
    forall x | IsHeap(s) && x in s ensures LessEq(s[0], x) {
      var k :| 0 <= k < |s| && s[k] == x;
      RootIsMinimum(s, k);
    }
  }

  /** The sequence with the elements at `i` and `j` exchanged. */
  function Swap(s: seq<Task>, i: nat, j: nat): (r: seq<Task>)
    requires i < |s| && j < |s|
    ensures |r| == |s| && r[i] == s[j] && r[j] == s[i]
    ensures forall k :: 0 <= k < |s| && k != i && k != j ==> r[k] == s[k]
    ensures multiset(r) == multiset(s)
  {
    s[i := s[j]][j := s[i]]
  }

  // ---- Sift-up (addItem) ----

  /** What addItem's loop keeps, stated for the sequence with the new item
      written into the hole at `k`: the heap property holds except between
      `k` and its parent, and `k`'s parent is no larger than `k`'s children. */
  ghost predicate SiftUpInv(t: seq<Task>, k: nat)
  {
    k < |t|
    && (forall j :: 0 < j < |t| && j != k ==> LessEq(t[PLoc(j)], t[j]))
    && (k > 0 ==> forall c :: 0 < c < |t| && PLoc(c) == k ==> LessEq(t[PLoc(k)], t[c]))
  }

  /** Appending an item to a heap sets up the sift-up invariant at the end. */
  lemma SiftUpStart(s: seq<Task>, x: Task)
    requires IsHeap(s)
    ensures SiftUpInv(s + [x], |s|)
  {
  }

  /** One round of the loop: the parent is greater than the item, so the
      parent moves down into the hole and the hole moves up. */
  lemma SiftUpStep(t: seq<Task>, k: nat)
    requires SiftUpInv(t, k) && k > 0
    requires Less(t[k], t[PLoc(k)])
    ensures SiftUpInv(Swap(t, k, PLoc(k)), PLoc(k))
  {
    var p := PLoc(k);
    var t' := Swap(t, k, p);
    forall j | 0 < j < |t'| && j != p
      ensures LessEq(t'[PLoc(j)], t'[j])
    {
      if j == k {
      } else if PLoc(j) == k {
        assert LessEq(t[p], t[j]);
      } else if PLoc(j) == p {
        CompareTransitive(t[k], t[p], t[j]);
      }
    }
    if p > 0 {
      forall c | 0 < c < |t'| && PLoc(c) == p
        ensures LessEq(t'[PLoc(p)], t'[c])
      {
        if c != k {
          CompareTransitive(t[PLoc(p)], t[p], t[c]);
        }
      }
    }
  }

  /** The loop round as addItem performs it on the sequence with the hole. */
  lemma SiftUpHole(s: seq<Task>, k: nat, x: Task)
    requires k < |s| && k > 0 && SiftUpInv(s[k := x], k)
    requires Compare(s[PLoc(k)], x) > 0
    ensures SiftUpInv(s[k := s[PLoc(k)]][PLoc(k) := x], PLoc(k))
    ensures multiset(s[k := s[PLoc(k)]][PLoc(k) := x]) == multiset(s[k := x])
  {
    var t := s[k := x];
    CompareAntisymmetric(s[PLoc(k)], x);
    SiftUpStep(t, k);
    assert s[k := s[PLoc(k)]][PLoc(k) := x] == Swap(t, k, PLoc(k));
  }

  /** The loop stops at the root or below a parent that is not greater than
      the item: then the whole sequence is a heap. */
  lemma SiftUpDone(t: seq<Task>, k: nat)
    requires SiftUpInv(t, k)
    requires k == 0 || LessEq(t[PLoc(k)], t[k])
    ensures IsHeap(t)
  {
  }

  // ---- Sift-down (removeItem) ----

  /** What removeItem's loop keeps, stated for the sequence with the moved
      element written into the hole at `k`: the heap property holds except
      between `k` and its children, and `k`'s parent is no larger than
      `k`'s children. */
  ghost predicate SiftDownInv(t: seq<Task>, k: nat)
  {
    k < |t|
    && (forall j :: 0 < j < |t| && PLoc(j) != k ==> LessEq(t[PLoc(j)], t[j]))
    && (k > 0 ==> forall c :: 0 < c < |t| && PLoc(c) == k ==> LessEq(t[PLoc(k)], t[c]))
  }

  /** Replacing the root of a heap sets up the sift-down invariant at the root. */
  lemma SiftDownStart(s: seq<Task>, x: Task)
    requires IsHeap(s) && |s| > 0
    ensures SiftDownInv(s[0 := x], 0)
  {
    var t := s[0 := x];
    forall j | 0 < j < |t| && PLoc(j) != 0 ensures LessEq(t[PLoc(j)], t[j]) {
      assert LessEq(s[PLoc(j)], s[j]);
    }
  }

  /** One round of the loop: the chosen child `c` is no larger than any
      child of `k` and strictly smaller than the moved element, so it moves
      up into the hole and the hole moves down to `c`. */
  lemma SiftDownStep(t: seq<Task>, k: nat, c: nat)
    requires SiftDownInv(t, k)
    requires c < |t| && (c == LCLoc(k) || c == RCLoc(k))
    requires LCLoc(k) < |t| ==> LessEq(t[c], t[LCLoc(k)])
    requires RCLoc(k) < |t| ==> LessEq(t[c], t[RCLoc(k)])
    requires Less(t[c], t[k])
    ensures SiftDownInv(Swap(t, k, c), c)
  {
    var t' := Swap(t, k, c);
    forall j | 0 < j < |t'| && PLoc(j) != c
      ensures LessEq(t'[PLoc(j)], t'[j])
    {
      if j == k {
      } else if j == c {
      } else if PLoc(j) == k {
        ChildrenOf(k, j);
      } else {
        assert LessEq(t[PLoc(j)], t[j]);
      }
    }
    forall g | 0 < g < |t'| && PLoc(g) == c
      ensures LessEq(t'[PLoc(c)], t'[g])
    {
      assert LessEq(t[c], t[g]);
    }
  }

  /** The loop stops when `k` has no child or no child smaller than the
      moved element: then the whole sequence is a heap. */
  lemma SiftDownDone(t: seq<Task>, k: nat)
    requires SiftDownInv(t, k)
    requires LCLoc(k) < |t| ==> LessEq(t[k], t[LCLoc(k)])
    requires RCLoc(k) < |t| ==> LessEq(t[k], t[RCLoc(k)])
    ensures IsHeap(t)
  {
    forall j | 0 < j < |t| && PLoc(j) == k ensures LessEq(t[PLoc(j)], t[j]) {
      ChildrenOf(k, j);
    }
  }

  /** Taking the last element off a heap of two or more and writing it over
      the root sets up the sift-down invariant at the root; the elements are
      then the old ones less the root. */
  lemma RemoveRootStart(s: seq<Task>)
    requires IsHeap(s) && |s| > 1
    ensures SiftDownInv(s[..|s| - 1][0 := s[|s| - 1]], 0)
    ensures multiset(s[..|s| - 1][0 := s[|s| - 1]]) == multiset(s) - multiset{s[0]}
  {
    var n := |s|;
    var r := s[..n - 1];
    assert IsHeap(r);
    SiftDownStart(r, s[n - 1]);
    assert s == [s[0]] + s[1..n - 1] + [s[n - 1]];
    assert r[0 := s[n - 1]] == [s[n - 1]] + s[1..n - 1];
  }

  /** The loop round as removeItem performs it on the sequence with the
      hole at `k`: the child it picks (the right one only when strictly
      smaller than the left) is strictly smaller than the moved element `x`,
      so the child moves up and the hole moves down to it. */
  lemma SiftDownHole(s: seq<Task>, k: nat, x: Task, c: nat)
    requires k < |s| && SiftDownInv(s[k := x], k) && LCLoc(k) < |s|
    requires c == if RCLoc(k) < |s| && Less(s[RCLoc(k)], s[LCLoc(k)]) then RCLoc(k) else LCLoc(k)
    requires Less(s[c], x)
    ensures SiftDownInv(s[k := s[c]][c := x], c)
    ensures multiset(s[k := s[c]][c := x]) == multiset(s[k := x])
  {
    var t := s[k := x];
    PickedChildIsSmallest(s, k, c);
    SiftDownStep(t, k, c);
    assert s[k := s[c]][c := x] == Swap(t, k, c);
  }

  /** removeItem's choice of child gives a child no larger than either child. */
  lemma PickedChildIsSmallest(s: seq<Task>, k: nat, c: nat)
    requires LCLoc(k) < |s|
    requires c == if RCLoc(k) < |s| && Less(s[RCLoc(k)], s[LCLoc(k)]) then RCLoc(k) else LCLoc(k)
    ensures LessEq(s[c], s[LCLoc(k)])
    ensures RCLoc(k) < |s| ==> LessEq(s[c], s[RCLoc(k)])
  {
    CompareReflexive(s[c]);
    if RCLoc(k) < |s| {
      CompareTotal(s[RCLoc(k)], s[LCLoc(k)]);
    }
  }

  /** The loop stops: `k` has no child, or the picked child is not smaller
      than the moved element. Writing the element into the hole then gives
      a heap. */
  lemma SiftDownHoleDone(s: seq<Task>, k: nat, x: Task, c: nat)
    requires k < |s| && SiftDownInv(s[k := x], k)
    requires LCLoc(k) < |s| ==>
      c == (if RCLoc(k) < |s| && Less(s[RCLoc(k)], s[LCLoc(k)]) then RCLoc(k) else LCLoc(k))
      && !Less(s[c], x)
    ensures IsHeap(s[k := x])
  {
    var t := s[k := x];
    if LCLoc(k) < |s| {
      PickedChildIsSmallest(s, k, c);
      CompareTotal(s[c], x);
      CompareTransitive(x, s[c], s[LCLoc(k)]);
      if RCLoc(k) < |s| {
        CompareTransitive(x, s[c], s[RCLoc(k)]);
      }
    }
    SiftDownDone(t, k);
  }

  // ---- Ascending order and the reference sort ----

  /** Each element may stand before every later one. */
  predicate Sorted(s: seq<Task>)
  {
    forall i, j :: 0 <= i < j < |s| ==> LessEq(s[i], s[j])
  }

  /** Puts `x` into a sorted sequence before the first element it does not follow. */
  function Insert(x: Task, s: seq<Task>): (r: seq<Task>)
    requires Sorted(s)
    ensures Sorted(r)
    ensures multiset(r) == multiset(s) + multiset{x}
  {
    if s == [] then [x]
    else if LessEq(x, s[0]) then
      InsertBeforeHead(x, s);
      [x] + s
    else
      SortedTail(s);
      var r' := Insert(x, s[1..]);
      InsertAfterHead(x, s, r');
      [s[0]] + r'
  }

  /** A task no larger than every element of a sorted sequence can go in
      front of it. */
  lemma SortedCons(h: Task, rest: seq<Task>)
    requires Sorted(rest)
    requires forall y :: y in rest ==> LessEq(h, y)
    ensures Sorted([h] + rest)
  {
    var w := [h] + rest;
    forall i, j | 0 <= i < j < |w| ensures LessEq(w[i], w[j]) {
      if i == 0 {
        assert w[j] in rest;
      } else {
        assert w[i] == rest[i - 1] && w[j] == rest[j - 1];
      }
    }
  }

  lemma InsertBeforeHead(x: Task, s: seq<Task>)
    requires Sorted(s) && s != [] && LessEq(x, s[0])
    ensures Sorted([x] + s)
  {
    forall y | y in s ensures LessEq(x, y) {
      var j :| 0 <= j < |s| && s[j] == y;
      CompareTransitive(x, s[0], s[j]);
    }
    SortedCons(x, s);
  }

  lemma InsertAfterHead(x: Task, s: seq<Task>, r': seq<Task>)
    requires Sorted(s) && s != [] && !LessEq(x, s[0])
    requires Sorted(r') && multiset(r') == multiset(s[1..]) + multiset{x}
    ensures Sorted([s[0]] + r')
    ensures multiset([s[0]] + r') == multiset(s) + multiset{x}
  {
    CompareTotal(x, s[0]);
    forall y | y in r' ensures LessEq(s[0], y) {
      assert y in multiset(r');
      if y != x {
        assert y in multiset(s[1..]);
        var j :| 1 <= j < |s| && s[j] == y by {
          assert y in s[1..];
        }
      }
    }
    SortedCons(s[0], r');
    assert s == [s[0]] + s[1..];
  }

  /** Insertion sort: an ascending arrangement of the same elements. */
  function Sort(s: seq<Task>): (r: seq<Task>)
    ensures Sorted(r)
    ensures multiset(r) == multiset(s)
  {
    if s == [] then []
    else
      assert s == [s[0]] + s[1..];
      Insert(s[0], Sort(s[1..]))
  }

  /** Under Task's order two ascending sequences with the same elements are
      equal: ascending order fixes the arrangement completely. */
  lemma {:induction false} SortedUnique(a: seq<Task>, b: seq<Task>)
    requires Sorted(a) && Sorted(b) && multiset(a) == multiset(b)
    ensures a == b
    decreases |a|
  {
    if a != [] {
      assert a[0] in multiset(a);
      assert b != [];
      MinimumOfSorted(a, b[0]);
      MinimumOfSorted(b, a[0]);
      CompareAntisymmetricEq(a[0], b[0]);
      MultisetTail(a);
      MultisetTail(b);
      SortedTail(a);
      SortedTail(b);
      SortedUnique(a[1..], b[1..]);
      assert a == [a[0]] + a[1..];
      assert b == [b[0]] + b[1..];
    }
  }

  /** The first element of an ascending sequence is no larger than any of its elements. */
  lemma MinimumOfSorted(s: seq<Task>, x: Task)
    requires Sorted(s) && x in multiset(s)
    ensures LessEq(s[0], x)
  {
    var i :| 0 <= i < |s| && s[i] == x;
    if i == 0 { CompareReflexive(x); }
  }

  lemma MultisetTail(s: seq<Task>)
    requires s != []
    ensures multiset(s[1..]) == multiset(s) - multiset{s[0]}
  {
    assert s == [s[0]] + s[1..];
  }

  lemma SortedTail(s: seq<Task>)
    requires Sorted(s) && s != []
    ensures Sorted(s[1..])
  {
  }

  /** Any ascending arrangement of a sequence's elements is its sort. */
  lemma SortedIsSort(v: seq<Task>, s: seq<Task>)
    requires Sorted(v) && multiset(v) == multiset(s)
    ensures v == Sort(s)
  {
    SortedUnique(v, Sort(s));
  }

  // ---- The snapshot string (toString) ----

  /** Task.toString of each task, in order. */
  function Encodings(v: seq<Task>): (r: seq<string>)
    ensures |r| == |v|
    ensures forall i {:trigger r[i]} :: 0 <= i < |v| ==> r[i] == Encode(v[i])
  {
    seq(|v|, i requires 0 <= i < |v| => Encode(v[i]))
  }

  /** What Heap.toString returns: the encodings of the elements in ascending
      order, joined with '='. */
  function Snapshot(contents: seq<Task>): string
  {
    Join(Encodings(Sort(contents)), '=')
  }

  /** The snapshot depends on the elements alone, not on their arrangement,
      so two snapshots of the same contents are identical. */
  lemma SnapshotOfSameContents(a: seq<Task>, b: seq<Task>)
    requires multiset(a) == multiset(b)
    ensures Snapshot(a) == Snapshot(b)
  {
    SortedIsSort(Sort(a), b);
  }

  /** Adding one task's encoding to a non-empty snapshot text appends '='
      and that encoding. */
  lemma EncodingsSnoc(v: seq<Task>, t: Task)
    ensures Encodings(v + [t]) == Encodings(v) + [Encode(t)]
  {
  }
}
