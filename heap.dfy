/**
 * The persistent array-backed binary heap.
 *
 * The storage is an implicit complete binary tree: the children of index `i`
 * sit at `2i + 1` and `2i + 2`. Elements are integers ordered by the default
 * comparator; a heap is a min-heap or a max-heap according to its flag. The
 * sift operations work on a private copy of the storage (the source's
 * `withMutations`), modelled here as a local sequence that each step swaps
 * two positions of.
 */
module BinaryHeap {
  import opened Wrappers

  /** A heap object: its storage list and its max-heap flag. */
  datatype Heap = Heap(storage: seq<int>, maxHeap: bool)

  /** The two child indexes of a parent, each `None` (`null`) past the end of the list. */
  datatype ChildIndexes = ChildIndexes(left: Option<nat>, right: Option<nat>)

  // ---------------------------------------------------------------------
  // Comparison and index arithmetic

  /** `defaultComparator`: 1, -1 or 0 as `a` is larger than, smaller than or equal to `b`. */
  function DefaultComparator(a: int, b: int): (c: int)
    ensures c == 1 <==> a > b
    ensures c == -1 <==> a < b
    ensures c == 0 <==> a == b
  {
    if a > b then 1 else if a < b then -1 else 0
  }

  /** The order a parent must keep with its child: `<=` in a min-heap, `>=` in a max-heap. */
  predicate Fits(parent: int, child: int, max: bool)
  {
    if max then parent >= child else parent <= child
  }

  /** The index of the parent of a non-root index. */
  function Parent(i: nat): nat
    requires i > 0
  {
    (i - 1) / 2
  }

  /** `findParentWithChild`: `None` for the root, otherwise the index whose child `c` is. */
  function FindParentWithChild(c: nat): (p: Option<nat>)
    ensures p.None? <==> c == 0
    ensures p.Some? ==> p.value < c && (c == 2 * p.value + 1 || c == 2 * p.value + 2)
  {
    if c == 0 then None else if c % 2 == 0 then Some(c / 2 - 1) else Some(c / 2)
  }

  /** `findChildrenWithParent`: `2p + 1` and `2p + 2`, each `None` when not below `size`. */
  function FindChildrenWithParent(p: nat, size: nat): (cs: ChildIndexes)
    ensures cs.left.Some? <==> 2 * p + 1 < size
    ensures cs.right.Some? <==> 2 * p + 2 < size
    ensures cs.right.Some? ==> cs.left.Some?
  {
    var l, r := 2 * p + 1, (p + 1) * 2;
    ChildIndexes(if l >= size then None else Some(l), if r >= size then None else Some(r))
  }

  /** The two index functions are inverse: `c` is a child of `p` exactly when `p` is the parent of `c`. */
  lemma ParentChildInverse(p: nat, c: nat, size: nat)
    requires c < size
    ensures FindParentWithChild(c) == Some(p) <==>
      (FindChildrenWithParent(p, size).left == Some(c) || FindChildrenWithParent(p, size).right == Some(c))
  {
    if c > 0 && (c == 2 * p + 1 || c == 2 * p + 2) {
      assert FindParentWithChild(c).value == p;
    }
  }

  /** `integrityCheck`: holds when either index is `None`, otherwise when the pair is in heap order. */
  function IntegrityCheck(s: seq<int>, p: Option<nat>, c: Option<nat>, max: bool): (ok: bool)
    requires p.Some? && c.Some? ==> p.value < |s| && c.value < |s|
    ensures ok <==> p.None? || c.None? || Fits(s[p.value], s[c.value], max)
  {
    if p.None? || c.None? then true
    else
      var comparison := DefaultComparator(s[p.value], s[c.value]);
      if max then comparison == 1 || comparison == 0 else comparison == -1 || comparison == 0
  }

  /** `switchNodes`: the list with two positions exchanged. */
  function SwitchNodes(s: seq<int>, i: nat, j: nat): (r: seq<int>)
    requires i < |s| && j < |s|
    ensures |r| == |s| && multiset(r) == multiset(s)
    ensures r[i] == s[j] && r[j] == s[i]
    ensures forall k :: 0 <= k < |s| && k != i && k != j ==> r[k] == s[k]
  {
    s[i := s[j]][j := s[i]]
  }

  // ---------------------------------------------------------------------
  // Heap order

  /** Every parent/child pair passes the integrity check. */
  ghost predicate HeapOrdered(s: seq<int>, max: bool)
  {
    forall j :: 0 < j < |s| ==> Fits(s[Parent(j)], s[j], max)
  }

  /** Every pair whose parent index is at least `k` is in heap order. */
  ghost predicate HeapFrom(s: seq<int>, k: nat, max: bool)
  {
    forall j :: 0 < j < |s| && Parent(j) >= k ==> Fits(s[Parent(j)], s[j], max)
  }

  /** The root fits every element of a heap: it is the minimum (or maximum). */
  lemma {:induction false} RootIsExtreme(s: seq<int>, max: bool, i: nat)
    requires HeapOrdered(s, max) && i < |s|
    ensures Fits(s[0], s[i], max)
    decreases i
  {
    if i > 0 {
      RootIsExtreme(s, max, Parent(i));
    }
  }

  // ---------------------------------------------------------------------
  // siftDown

  /**
   * The child `siftDown` swaps with: the only child, or of two children the
   * one that passes the integrity check against the other (the left one on a tie).
   */
  function SelectChild(s: seq<int>, p: nat, max: bool): (c: nat)
    requires 2 * p + 1 < |s|
    ensures c == 2 * p + 1 || (c == 2 * p + 2 && c < |s|)
    ensures 2 * p + 2 < |s| ==> Fits(s[c], s[2 * p + 1], max) && Fits(s[c], s[2 * p + 2], max)
    ensures 2 * p + 2 < |s| && s[2 * p + 1] == s[2 * p + 2] ==> c == 2 * p + 1
  {
    var cs := FindChildrenWithParent(p, |s|);
    if cs.right.Some? && !IntegrityCheck(s, cs.left, cs.right, max) then cs.right.value else cs.left.value
  }

  /**
   * The loop invariant of `siftDown` from `index`, currently at `p`: pairs
   * below `index` are in order except those with parent `p`, and the parent
   * of `p` (once `p` has moved down) fits the children of `p`.
   */
  ghost predicate DownInv(s: seq<int>, index: nat, p: nat, max: bool)
  {
    && (forall j :: 0 < j < |s| && Parent(j) >= index && Parent(j) != p ==> Fits(s[Parent(j)], s[j], max))
    && (p != index && p > 0 ==> forall j :: 0 < j < |s| && Parent(j) == p ==> Fits(s[Parent(p)], s[j], max))
  }

  lemma SiftDownStep(s: seq<int>, index: nat, p: nat, max: bool)
    requires DownInv(s, index, p, max) && index <= p && 2 * p + 1 < |s|
    requires p != index ==> p > 0 && Parent(p) >= index
    requires !Fits(s[p], s[2 * p + 1], max) || (2 * p + 2 < |s| && !Fits(s[p], s[2 * p + 2], max))
    ensures var c := SelectChild(s, p, max);
      DownInv(SwitchNodes(s, p, c), index, c, max) && Parent(c) == p
  {
    var c := SelectChild(s, p, max);
    assert p < c < |s| && Parent(c) == p;
    var t := SwitchNodes(s, p, c);
    assert Fits(s[c], s[p], max);
    forall j | 0 < j < |t| && Parent(j) >= index && Parent(j) != c
      ensures Fits(t[Parent(j)], t[j], max)
    {
      if j == c {
        assert t[p] == s[c] && t[c] == s[p];
      } else if Parent(j) == p {
        assert t[p] == s[c] && t[j] == s[j] && Fits(s[c], s[j], max);
      } else if j == p {
        assert t[Parent(p)] == s[Parent(p)] && t[p] == s[c];
      } else {
        assert t[Parent(j)] == s[Parent(j)] && t[j] == s[j];
      }
    }
    forall j | 0 < j < |t| && Parent(j) == c ensures Fits(t[Parent(c)], t[j], max) {
      assert t[Parent(c)] == s[c] && t[j] == s[j];
    }
  }

  lemma DownStart(s: seq<int>, index: nat, max: bool)
    requires HeapFrom(s, index + 1, max)
    ensures DownInv(s, index, index, max)
  {
  }

  lemma DownDone(s: seq<int>, index: nat, p: nat, max: bool)
    requires DownInv(s, index, p, max)
    requires 2 * p + 1 < |s| ==> Fits(s[p], s[2 * p + 1], max)
    requires 2 * p + 2 < |s| ==> Fits(s[p], s[2 * p + 2], max)
    ensures HeapFrom(s, index, max)
  {
    forall j | 0 < j < |s| && Parent(j) >= index ensures Fits(s[Parent(j)], s[j], max) {
      if Parent(j) == p {
        assert j == 2 * p + 1 || j == 2 * p + 2;
      }
    }
  }

  /** The state `siftDown` from `index` keeps while it is at `p`. */
  ghost predicate DownState(list: seq<int>, r: seq<int>, index: nat, p: nat, ok: bool, max: bool)
  {
    && |r| == |list| && multiset(r) == multiset(list)
    && index <= p && (p != index ==> p > 0 && Parent(p) >= index)
    && (forall k :: 0 <= k < |list| && k < index ==> r[k] == list[k])
    && (ok ==> DownInv(r, index, p, max))
    && (HeapFrom(list, index, max) ==> r == list)
  }

  /** An element out of order with one of its children means the list is not a heap from any index up to it. */
  lemma OutOfOrder(s: seq<int>, index: nat, p: nat, max: bool)
    requires index <= p && 2 * p + 1 < |s|
    requires !Fits(s[p], s[2 * p + 1], max) || (2 * p + 2 < |s| && !Fits(s[p], s[2 * p + 2], max))
    ensures !HeapFrom(s, index, max)
  {
    if !Fits(s[p], s[2 * p + 1], max) {
      assert Parent(2 * p + 1) == p;
    } else {
      assert Parent(2 * p + 2) == p;
    }
  }

  /** A swap with the selected child keeps the state of `siftDown`, one level further down. */
  lemma RoundState(list: seq<int>, r: seq<int>, index: nat, p: nat, ok: bool, max: bool)
    requires DownState(list, r, index, p, ok, max) && 2 * p + 1 < |r|
    requires !Fits(r[p], r[2 * p + 1], max) || (2 * p + 2 < |r| && !Fits(r[p], r[2 * p + 2], max))
    ensures var c := SelectChild(r, p, max);
      DownState(list, SwitchNodes(r, p, c), index, c, ok, max) && p < c
  {
    OutOfOrder(r, index, p, max);
    if ok {
      SiftDownStep(r, index, p, max);
    }
  }

  lemma DownBegin(list: seq<int>, index: nat, ok: bool, max: bool)
    requires ok == HeapFrom(list, index + 1, max)
    ensures DownState(list, list, index, index, ok, max)
  {
    if ok {
      DownStart(list, index, max);
    }
  }

  /** Once the element at `p` is in order with its children, the state of `siftDown` gives its promises. */
  lemma DownEnd(list: seq<int>, r: seq<int>, index: nat, p: nat, ok: bool, max: bool)
    requires DownState(list, r, index, p, ok, max) && ok == HeapFrom(list, index + 1, max)
    requires var children := FindChildrenWithParent(p, |r|);
      IntegrityCheck(r, Some(p), children.left, max) && IntegrityCheck(r, Some(p), children.right, max)
    ensures |r| == |list| && multiset(r) == multiset(list)
    ensures forall k :: 0 <= k < |list| && k < index ==> r[k] == list[k]
    ensures HeapFrom(list, index + 1, max) ==> HeapFrom(r, index, max)
    ensures HeapFrom(list, index, max) ==> r == list
  {
    if ok {
      DownDone(r, index, p, max);
    }
  }

  /** One round of `siftDown`: swap the element at `p` with the selected child and move there. */
  method SiftDownRound(list: seq<int>, r: seq<int>, index: nat, p: nat, max: bool, ghost ok: bool)
    returns (r': seq<int>, p': nat)
    requires DownState(list, r, index, p, ok, max)
    requires var children := FindChildrenWithParent(p, |r|);
      !IntegrityCheck(r, Some(p), children.left, max) || !IntegrityCheck(r, Some(p), children.right, max)
    ensures DownState(list, r', index, p', ok, max) && p < p' <= |r|
  {
    RoundState(list, r, index, p, ok, max);
    var c := SelectChild(r, p, max);
    r' := SwitchNodes(r, p, c);
    p' := c;
  }

  /**
   * `siftDown`: while the element at `p` is out of order with a child, swap it
   * with the selected child and continue there. Only positions from `index`
   * on change; from a list whose pairs below `index` are in order it makes
   * the pairs from `index` on ordered; an element already in order with its
   * children is left where it is.
   */
  method SiftDown(list: seq<int>, index: nat, max: bool) returns (r: seq<int>)
    ensures |r| == |list| && multiset(r) == multiset(list)
    ensures forall k :: 0 <= k < |list| && k < index ==> r[k] == list[k]
    ensures HeapFrom(list, index + 1, max) ==> HeapFrom(r, index, max)
    ensures HeapFrom(list, index, max) ==> r == list
  {
    r := list;
    var p := index;
    var children := FindChildrenWithParent(p, |r|);
    ghost var ok := HeapFrom(list, index + 1, max);
    DownBegin(list, index, ok, max);
    while !IntegrityCheck(r, Some(p), children.left, max) || !IntegrityCheck(r, Some(p), children.right, max)
      invariant DownState(list, r, index, p, ok, max)
      invariant children == FindChildrenWithParent(p, |r|)
      decreases |r| - p
    {
      r, p := SiftDownRound(list, r, index, p, max, ok);
      children := FindChildrenWithParent(p, |r|);
    }
    DownEnd(list, r, index, p, ok, max);
  }

  // ---------------------------------------------------------------------
  // siftUp

  /**
   * The loop invariant of `siftUp` at child `c`: every pair except the one
   * ending at `c` is in order, and the parent of `c` fits the children of `c`.
   */
  ghost predicate UpInv(s: seq<int>, c: nat, max: bool)
  {
    && (forall j :: 0 < j < |s| && j != c ==> Fits(s[Parent(j)], s[j], max))
    && (c > 0 ==> forall j :: 0 < j < |s| && Parent(j) == c ==> Fits(s[Parent(c)], s[j], max))
  }

  lemma SiftUpStep(s: seq<int>, c: nat, max: bool)
    requires UpInv(s, c, max) && 0 < c < |s| && !Fits(s[Parent(c)], s[c], max)
    ensures UpInv(SwitchNodes(s, Parent(c), c), Parent(c), max)
  {
    var p := Parent(c);
    var t := SwitchNodes(s, p, c);
    forall j | 0 < j < |t| && j != p ensures Fits(t[Parent(j)], t[j], max) {
      if Parent(j) == p && j != c {
        assert Fits(s[p], s[j], max);
      }
    }
    if p > 0 {
      forall j | 0 < j < |t| && Parent(j) == p ensures Fits(t[Parent(p)], t[j], max) {
        assert Fits(s[Parent(p)], s[p], max);
        if j != c {
          assert Fits(s[p], s[j], max);
        }
      }
    }
  }

  /** The state `siftUp` keeps while at child `c`. */
  ghost predicate UpState(list: seq<int>, r: seq<int>, c: nat, ok: bool, max: bool)
  {
    |r| == |list| && multiset(r) == multiset(list) && c < |r| && (ok ==> UpInv(r, c, max))
  }

  /** A swap of an out-of-order pair keeps the state of `siftUp`, one level further up. */
  lemma UpRound(list: seq<int>, r: seq<int>, c: nat, ok: bool, max: bool)
    requires UpState(list, r, c, ok, max) && c > 0 && !Fits(r[Parent(c)], r[c], max)
    ensures UpState(list, SwitchNodes(r, Parent(c), c), Parent(c), ok, max)
  {
    if ok {
      SiftUpStep(r, c, max);
    }
  }

  /** Once the pair ending at `c` is in order, the invariant of `siftUp` is heap order. */
  lemma UpDone(list: seq<int>, r: seq<int>, c: nat, ok: bool, max: bool)
    requires UpState(list, r, c, ok, max) && (c > 0 ==> Fits(r[Parent(c)], r[c], max))
    ensures |r| == |list| && multiset(r) == multiset(list)
    ensures ok ==> HeapOrdered(r, max)
  {
  }

  /**
   * `siftUp`: while the pair (parent, child) is out of order, swap it and move
   * up. A list in heap order except for the pair ending at `child` (such as a
   * heap with one element pushed at the end) comes out in heap order.
   */
  method SiftUp(list: seq<int>, parent: Option<nat>, child: nat, max: bool) returns (r: seq<int>)
    requires child < |list| && parent == FindParentWithChild(child)
    ensures |r| == |list| && multiset(r) == multiset(list)
    ensures UpInv(list, child, max) ==> HeapOrdered(r, max)
  {
    r := list;
    var p: Option<nat>, c: nat := parent, child;
    ghost var ok := UpInv(list, child, max);
    while !IntegrityCheck(r, p, Some(c), max)
      invariant UpState(list, r, c, ok, max) && p == FindParentWithChild(c)
      decreases c
    {
      assert p.value == Parent(c);
      UpRound(list, r, c, ok, max);
      r := SwitchNodes(r, p.value, c);
      c := p.value;
      p := FindParentWithChild(c);
    }
    assert c > 0 ==> p.value == Parent(c);
    UpDone(list, r, c, ok, max);
  }

  // ---------------------------------------------------------------------
  // buildHeap

  function Pow2(e: nat): (p: nat)
    ensures p >= 1
  {
    if e == 0 then 1 else 2 * Pow2(e - 1)
  }

  /** The integer part of the base-2 logarithm. */
  function Log2Floor(n: nat): (e: nat)
    requires n >= 1
    ensures Pow2(e) <= n < 2 * Pow2(e)
  {
    if n == 1 then 0 else 1 + Log2Floor(n / 2)
  }

  /** How many leading indexes `buildHeap` sifts: `2^floor(log2 n) - 1`, and -1 for the empty list. */
  function NumberOfSifts(n: nat): (k: int)
    ensures n == 0 ==> k == -1
    ensures n >= 1 ==> n / 2 <= k < n
  {
    if n == 0 then -1 else Pow2(Log2Floor(n)) - 1
  }

  /** An index `buildHeap` skips is a leaf: it has no child. */
  lemma SkippedIsLeaf(n: nat, i: nat)
    requires i < n && i + 1 > NumberOfSifts(n)
    ensures 2 * i + 1 >= n
  {
  }

  lemma LeafHeapFrom(s: seq<int>, i: nat, max: bool)
    requires HeapFrom(s, i + 1, max) && 2 * i + 1 >= |s|
    ensures HeapFrom(s, i, max)
  {
  }

  /**
   * `buildHeap`: sifts down the indexes below `NumberOfSifts`, from the last
   * to the first. The result is a heap with the same elements; a list that is
   * already a heap comes back unchanged.
   */
  method BuildHeap(list: seq<int>, max: bool) returns (r: seq<int>)
    ensures |r| == |list| && multiset(r) == multiset(list)
    ensures HeapOrdered(r, max)
    ensures HeapOrdered(list, max) ==> r == list
  {
    var numberOfSifts := NumberOfSifts(|list|);
    r := list;
    var index: nat := |list|;
    while index > 0
      invariant index <= |list| && |r| == |list| && multiset(r) == multiset(list)
      invariant HeapFrom(r, index, max)
      invariant HeapOrdered(list, max) ==> r == list
    {
      index := index - 1;
      if index + 1 <= numberOfSifts {
        r := SiftDown(r, index, max);
      } else {
        SkippedIsLeaf(|list|, index);
        LeafHeapFrom(r, index, max);
      }
    }
  }

  // ---------------------------------------------------------------------
  // Heap operations

  /** `new Heap(list, isMax)`: the list is heapified under the given direction. */
  method NewHeap(list: seq<int>, isMax: bool) returns (h: Heap)
    ensures h.maxHeap == isMax && HeapOrdered(h.storage, isMax)
    ensures |h.storage| == |list| && multiset(h.storage) == multiset(list)
    ensures HeapOrdered(list, isMax) ==> h.storage == list
  {
    var storage := BuildHeap(list, isMax);
    h := Heap(storage, isMax);
  }

  /** `new Heap(otherHeap, isMax)`: shares the other heap's storage under the given flag, without rebuilding. */
  function FromHeap(other: Heap, isMax: bool): (h: Heap)
    ensures h.storage == other.storage && h.maxHeap == isMax
  {
    Heap(other.storage, isMax)
  }

  /** Re-flagging a heap without rebuilding can leave its storage out of heap order. */
  lemma FromHeapMayBreakOrder()
    ensures HeapOrdered([1, 2], false) && !HeapOrdered(FromHeap(Heap([1, 2], false), true).storage, true)
  {
    assert Parent(1) == 0;
  }

  /** `peek`: the first element, `None` for an empty heap; in a heap, its extreme element. */
  function Peek(h: Heap): (r: Option<int>)
    ensures r.None? <==> |h.storage| == 0
    ensures r.Some? ==> r.value == h.storage[0]
    ensures r.Some? && HeapOrdered(h.storage, h.maxHeap) ==>
      forall i :: 0 <= i < |h.storage| ==> Fits(r.value, h.storage[i], h.maxHeap)
  {
    if |h.storage| == 0 then None
    else
      assert HeapOrdered(h.storage, h.maxHeap) ==> forall i :: 0 <= i < |h.storage| ==> Fits(h.storage[0], h.storage[i], h.maxHeap) by {
        if HeapOrdered(h.storage, h.maxHeap) {
          forall i | 0 <= i < |h.storage| ensures Fits(h.storage[0], h.storage[i], h.maxHeap) {
            RootIsExtreme(h.storage, h.maxHeap, i);
          }
        }
      }
      Some(h.storage[0])
  }

  lemma PushedUpInv(s: seq<int>, v: int, max: bool)
    requires HeapOrdered(s, max)
    ensures UpInv(s + [v], |s|, max)
  {
    var t := s + [v];
    forall j | 0 < j < |t| && j != |s| ensures Fits(t[Parent(j)], t[j], max) {
      assert t[j] == s[j] && t[Parent(j)] == s[Parent(j)];
    }
  }

  /**
   * `push`: appends the value, sifts it up and heapifies the result under the
   * heap's own flag. The size grows by one and the value joins the elements.
   */
  method Push(h: Heap, value: int) returns (r: Heap)
    ensures r.maxHeap == h.maxHeap && HeapOrdered(r.storage, r.maxHeap)
    ensures |r.storage| == |h.storage| + 1
    ensures multiset(r.storage) == multiset(h.storage) + multiset{value}
  {
    var childIndex := |h.storage|;
    var parentIndex := FindParentWithChild(childIndex);
    var newStorage := h.storage + [value];
    if HeapOrdered(h.storage, h.maxHeap) {
      PushedUpInv(h.storage, value, h.maxHeap);
    }
    var finalStorage := SiftUp(newStorage, parentIndex, childIndex, h.maxHeap);
    r := NewHeap(finalStorage, h.maxHeap);
  }

  lemma MoveLastToFront(s: seq<int>)
    requires |s| > 0
    ensures multiset(s[0 := s[|s| - 1]][..|s| - 1]) == multiset(s) - multiset{s[0]}
  {
    var n := |s|;
    if n == 1 {
      assert s[0 := s[0]][..0] == [];
    } else {
      assert s[0 := s[n - 1]][..n - 1] == [s[n - 1]] + s[1..n - 1];
      assert s == [s[0]] + s[1..n - 1] + [s[n - 1]];
    }
  }

  /** Overwriting the root of a heap leaves every pair below the root in order. */
  lemma RootOverwritten(s: seq<int>, v: int, max: bool)
    requires |s| > 0 && HeapOrdered(s, max)
    ensures HeapFrom(s[0 := v], 1, max)
  {
    var t := s[0 := v];
    forall j | 0 < j < |t| && Parent(j) >= 1 ensures Fits(t[Parent(j)], t[j], max) {
      assert t[j] == s[j] && t[Parent(j)] == s[Parent(j)];
    }
  }

  /** Moving the last element of a heap to the root leaves every pair below the root in order. */
  lemma LastMovedToRoot(s: seq<int>, max: bool)
    requires |s| > 0 && HeapOrdered(s, max)
    ensures HeapFrom(s[0 := s[|s| - 1]][..|s| - 1], 1, max)
  {
    var u := s[0 := s[|s| - 1]][..|s| - 1];
    forall j | 0 < j < |u| && Parent(j) >= 1 ensures Fits(u[Parent(j)], u[j], max) {
      assert u[j] == s[j] && u[Parent(j)] == s[Parent(j)];
    }
  }

  /**
   * `pop(value)`: an empty heap is returned as is. Without a value the last
   * element moves to the root and the list shrinks by one; with a value the
   * root is overwritten. The root is then sifted down and the list heapified.
   * Either way the old root leaves the elements.
   */
  method Pop(h: Heap, value: Option<int>) returns (r: Heap)
    ensures |h.storage| == 0 ==> r == h
    ensures |h.storage| > 0 ==> r.maxHeap == h.maxHeap && HeapOrdered(r.storage, r.maxHeap)
    ensures |h.storage| > 0 && value.None? ==>
      |r.storage| == |h.storage| - 1 && multiset(r.storage) == multiset(h.storage) - multiset{h.storage[0]}
    ensures |h.storage| > 0 && value.Some? ==>
      |r.storage| == |h.storage| &&
      multiset(r.storage) == multiset(h.storage) - multiset{h.storage[0]} + multiset{value.value}
  {
    if |h.storage| <= 0 {
      return h;
    }
    var s := h.storage;
    var siftingList: seq<int>;
    if value.None? {
      siftingList := s[0 := s[|s| - 1]][..|s| - 1];
      MoveLastToFront(s);
      if HeapOrdered(s, h.maxHeap) {
        LastMovedToRoot(s, h.maxHeap);
      }
    } else {
      siftingList := s[0 := value.value];
      if HeapOrdered(s, h.maxHeap) {
        RootOverwritten(s, value.value, h.maxHeap);
      }
    }
    var finalStorage := SiftDown(siftingList, 0, h.maxHeap);
    r := NewHeap(finalStorage, h.maxHeap);
  }

  /** `replace(value)`: `pop` with a value. */
  method Replace(h: Heap, value: int) returns (r: Heap)
    ensures |h.storage| == 0 ==> r == h
    ensures |h.storage| > 0 ==> r.maxHeap == h.maxHeap && HeapOrdered(r.storage, r.maxHeap)
    ensures |h.storage| > 0 ==>
      |r.storage| == |h.storage| &&
      multiset(r.storage) == multiset(h.storage) - multiset{h.storage[0]} + multiset{value}
  {
    r := Pop(h, Some(value));
  }

  /**
   * `merge(hp)`: the other heap's elements followed by this heap's are
   * heapified under this heap's flag and then again under `hp`'s, whose flag
   * the result carries.
   */
  method Merge(h: Heap, hp: Heap) returns (r: Heap)
    ensures r.maxHeap == hp.maxHeap && HeapOrdered(r.storage, r.maxHeap)
    ensures |r.storage| == |hp.storage| + |h.storage|
    ensures multiset(r.storage) == multiset(hp.storage) + multiset(h.storage)
  {
    var newStorage := BuildHeap(hp.storage + h.storage, h.maxHeap);
    r := NewHeap(newStorage, hp.maxHeap);
  }

  // ---------------------------------------------------------------------
  // heapSort

  /** The elements come out in heap order: non-decreasing for a min-heap, non-increasing for a max-heap. */
  ghost predicate InHeapOrder(out: seq<int>, max: bool)
  {
    forall i, j :: 0 <= i < j < |out| ==> Fits(out[i], out[j], max)
  }

  /** Each emitted element fits each element still in the heap. */
  ghost predicate Precedes(out: seq<int>, rest: seq<int>, max: bool)
  {
    forall i, j :: 0 <= i < |out| && 0 <= j < |rest| ==> Fits(out[i], rest[j], max)
  }

  lemma EmitStep(out: seq<int>, heap: Heap, next: Heap)
    requires |heap.storage| > 0 && HeapOrdered(heap.storage, heap.maxHeap)
    requires InHeapOrder(out, heap.maxHeap) && Precedes(out, heap.storage, heap.maxHeap)
    requires multiset(next.storage) == multiset(heap.storage) - multiset{heap.storage[0]}
    requires next.maxHeap == heap.maxHeap
    ensures InHeapOrder(out + [heap.storage[0]], heap.maxHeap)
    ensures Precedes(out + [heap.storage[0]], next.storage, heap.maxHeap)
  {
    var max, x := heap.maxHeap, heap.storage[0];
    var o := out + [x];
    forall i, j | 0 <= i < j < |o| ensures Fits(o[i], o[j], max) {
      if j == |out| {
        assert o[i] == out[i] && Fits(out[i], heap.storage[0], max);
      } else {
        assert o[i] == out[i] && o[j] == out[j];
      }
    }
    forall i, j | 0 <= i < |o| && 0 <= j < |next.storage| ensures Fits(o[i], next.storage[j], max) {
      var y := next.storage[j];
      assert y in multiset(next.storage);
      assert y in multiset(heap.storage);
      var k :| 0 <= k < |heap.storage| && heap.storage[k] == y;
      if i < |out| {
        assert o[i] == out[i];
      } else {
        RootIsExtreme(heap.storage, max, k);
      }
    }
  }

  /**
   * What holds after some rounds of sorting `h`: the emitted elements and
   * the remaining heap together are `h`'s elements, and from a heap the
   * emitted ones are in heap order and fit every remaining one.
   */
  ghost predicate SortInv(h: Heap, sorted: seq<int>, heap: Heap, ordered: bool)
  {
    && |sorted| + |heap.storage| == |h.storage|
    && heap.maxHeap == h.maxHeap
    && multiset(sorted) + multiset(heap.storage) == multiset(h.storage)
    && (ordered ==> HeapOrdered(heap.storage, heap.maxHeap))
    && (ordered ==> InHeapOrder(sorted, h.maxHeap) && Precedes(sorted, heap.storage, h.maxHeap))
  }

  /** One round of `heapSort`: push the peeked top onto the output and pop the heap. */
  method EmitTop(h: Heap, sorted: seq<int>, heap: Heap, ghost ordered: bool) returns (sorted': seq<int>, heap': Heap)
    requires |heap.storage| > 0 && SortInv(h, sorted, heap, ordered)
    ensures SortInv(h, sorted', heap', ordered)
    ensures |sorted'| == |sorted| + 1 && |heap'.storage| == |heap.storage| - 1
  {
    var top := Peek(heap);
    var next := Pop(heap, None);
    if ordered {
      EmitStep(sorted, heap, next);
    }
    sorted' := sorted + [top.value];
    heap' := next;
  }

  /**
   * `heapSort`: peeks and pops while the loop counter is below the size of
   * the shrinking heap, so only the first half (rounded up) of the elements is
   * emitted; from a heap they come out in heap order and are the extreme ones.
   */
  method HeapSort(h: Heap) returns (sorted: seq<int>)
    ensures |sorted| == (|h.storage| + 1) / 2
    ensures multiset(sorted) <= multiset(h.storage)
    ensures HeapOrdered(h.storage, h.maxHeap) ==> InHeapOrder(sorted, h.maxHeap)
    ensures HeapOrdered(h.storage, h.maxHeap) ==>
      forall x, y :: x in sorted && y in multiset(h.storage) - multiset(sorted) ==> Fits(x, y, h.maxHeap)
  {
    sorted := [];
    var heap := h;
    var i := 0;
    ghost var ordered := HeapOrdered(h.storage, h.maxHeap);
    while i < |heap.storage|
      invariant i == |sorted| && i <= |heap.storage| + 1
      invariant SortInv(h, sorted, heap, ordered)
      decreases |heap.storage| - i
    {
      sorted, heap := EmitTop(h, sorted, heap, ordered);
      i := i + 1;
    }
    if ordered {
      PrecedesRest(sorted, heap.storage, h);
    }
  }

  lemma PrecedesRest(sorted: seq<int>, rest: seq<int>, h: Heap)
    requires multiset(sorted) + multiset(rest) == multiset(h.storage)
    requires Precedes(sorted, rest, h.maxHeap)
    ensures forall x, y :: x in sorted && y in multiset(h.storage) - multiset(sorted) ==> Fits(x, y, h.maxHeap)
  {
    forall x, y | x in sorted && y in multiset(h.storage) - multiset(sorted) ensures Fits(x, y, h.maxHeap) {
      assert multiset(h.storage) - multiset(sorted) == multiset(rest);
      assert y in rest;
      var i :| 0 <= i < |sorted| && sorted[i] == x;
      var j :| 0 <= j < |rest| && rest[j] == y;
    }
  }

  /** The evidently intended `heapSort`: pops until the heap is empty, emitting every element. */
  method HeapSortAll(h: Heap) returns (sorted: seq<int>)
    ensures |sorted| == |h.storage|
    ensures multiset(sorted) == multiset(h.storage)
    ensures HeapOrdered(h.storage, h.maxHeap) ==> InHeapOrder(sorted, h.maxHeap)
  {
    sorted := [];
    var heap := h;
    ghost var ordered := HeapOrdered(h.storage, h.maxHeap);
    while |heap.storage| > 0
      invariant SortInv(h, sorted, heap, ordered)
      decreases |heap.storage|
    {
      sorted, heap := EmitTop(h, sorted, heap, ordered);
    }
  }
}
