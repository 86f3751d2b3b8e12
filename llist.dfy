/**
 * The persistent singly linked list.
 *
 * A list object owns a store of nodes; a node is named by its index in that
 * store, which plays the part of object identity (`===` on nodes). Each node
 * holds its data and a link to the next node (`Null` for `null`). A circular
 * list links its last node back to its head. Prepending to a non-circular
 * list keeps the old list's store as a prefix of the new one, so the old
 * nodes, with their indexes, are shared by both lists.
 */
module LinkedList {
  import opened Wrappers

  datatype Link = Null | At(index: nat)

  /** A node: `{data, next}`. */
  datatype LNode<T> = LNode(data: T, next: Link)

  /** A list object: its node store, `head`, `size` and `circular` flag. */
  datatype LList<T> = LList(nodes: seq<LNode<T>>, head: Link, size: nat, circular: bool)

  /** What the constructor accepts: an array of items, or any other single value. */
  datatype ItemOrList<T> = Item(item: T) | Items(items: seq<T>)

  /**
   * The ways the source fails: assigning through a `null` tail, assigning to
   * a frozen node (a `TypeError` in strict mode), and the error value
   * returned for an argument that is not a node.
   */
  datatype Error = NullTail | FrozenNode | NotANode

  /** `convertToSeq`: an array gives its items, any other value a one-element sequence. */
  function ConvertToSeq<T>(x: ItemOrList<T>): (s: seq<T>)
    ensures x.Items? ==> s == x.items
    ensures x.Item? ==> |s| == 1 && s[0] == x.item
  {
    match x
    case Item(v) => [v]
    case Items(vs) => vs
  }

  // ---------------------------------------------------------------------
  // Chains of nodes

  /**
   * The node indexes reached from `cur` by following `next`, at most `n` of
   * them, stopping early at `Null` or at a link outside the store.
   */
  function Walk<T>(nodes: seq<LNode<T>>, cur: Link, n: nat): (w: seq<nat>)
    ensures |w| <= n
    ensures forall k :: 0 <= k < |w| ==> w[k] < |nodes|
    ensures |w| > 0 ==> cur == At(w[0])
    ensures forall k :: 0 <= k < |w| - 1 ==> nodes[w[k]].next == At(w[k + 1])
    decreases n
  {
    if n == 0 || cur.Null? || cur.index >= |nodes| then []
    else if n == 1 then [cur.index]
    else [cur.index] + Walk(nodes, nodes[cur.index].next, n - 1)
  }

  /** The nodes of the list in order, from the head. */
  function Chain<T>(l: LList<T>): seq<nat>
  {
    Walk(l.nodes, l.head, l.size)
  }

  ghost predicate Distinct(ps: seq<nat>)
  {
    forall i, j :: 0 <= i < j < |ps| ==> ps[i] != ps[j]
  }

  /**
   * The shape every constructed list has: `size` distinct nodes linked from
   * the head, the last one pointing at `null` or, in a circular list, back
   * at the head; a circular list is never empty.
   */
  ghost predicate Valid<T>(l: LList<T>)
  {
    var ps := Chain(l);
    && |ps| == l.size
    && Distinct(ps)
    && (l.size == 0 ==> l.head.Null?)
    && (l.size > 0 ==> l.nodes[ps[l.size - 1]].next == if l.circular then l.head else Null)
    && (l.circular ==> l.size > 0)
  }

  /** The data of the nodes at the given indexes. */
  function DataAt<T>(nodes: seq<LNode<T>>, ps: seq<nat>): (d: seq<T>)
    requires forall k :: 0 <= k < |ps| ==> ps[k] < |nodes|
    ensures |d| == |ps| && forall k :: 0 <= k < |ps| ==> d[k] == nodes[ps[k]].data
  {
    seq(|ps|, k requires 0 <= k < |ps| => nodes[ps[k]].data)
  }

  /** The data of the list, in order. */
  function Data<T>(l: LList<T>): seq<T>
  {
    DataAt(l.nodes, Chain(l))
  }

  function Range(start: nat, n: nat): (r: seq<nat>)
    ensures |r| == n && forall k :: 0 <= k < n ==> r[k] == start + k
  {
    seq(n, k requires 0 <= k < n => start + k)
  }

  /**
   * `makeHead`: one node per item, each linked to the next and the last to
   * `null`; the nodes are placed in the store from index `base` on.
   */
  function MakeHead<T>(items: seq<T>, base: nat): (ns: seq<LNode<T>>)
    ensures |ns| == |items|
    ensures forall k :: 0 <= k < |ns| ==> ns[k].data == items[k]
    ensures forall k :: 0 <= k < |ns| ==> ns[k].next == if k + 1 < |ns| then At(base + k + 1) else Null
    decreases |items|
  {
    if |items| == 0 then []
    else [LNode(items[0], if |items| == 1 then Null else At(base + 1))] + MakeHead(items[1..], base + 1)
  }

  /**
   * The `n` nodes from index `b` on are linked one to the next, and the last
   * one to `tailNext`.
   */
  ghost predicate Run<T>(nodes: seq<LNode<T>>, b: nat, n: nat, tailNext: Link)
  {
    && b + n <= |nodes|
    && forall j :: b <= j < b + n ==> nodes[j].next == if j + 1 < b + n then At(j + 1) else tailNext
  }

  /** Walking a run of linked nodes visits the run, then continues where its last node points. */
  lemma {:induction false} WalkRun<T>(nodes: seq<LNode<T>>, b: nat, n: nat, tailNext: Link, m: nat)
    requires n > 0 && Run(nodes, b, n, tailNext)
    ensures Walk(nodes, At(b), n + m) == Range(b, n) + Walk(nodes, tailNext, m)
    decreases n
  {
    RunNext(nodes, b, n, tailNext, b);
    if n + m == 1 {
      assert Walk(nodes, At(b), 1) == [b] == Range(b, 1);
      assert Walk(nodes, tailNext, m) == [];
    } else if n == 1 {
      WalkCons(nodes, b, 1 + m);
      assert Range(b, 1) == [b];
    } else {
      RunRest(nodes, b, n, tailNext);
      WalkRun(nodes, b + 1, n - 1, tailNext, m);
      WalkRunStep(nodes, b, n, m, Walk(nodes, tailNext, m));
    }
  }

  /** A run without its first node is a run. */
  lemma RunRest<T>(nodes: seq<LNode<T>>, b: nat, n: nat, tailNext: Link)
    requires n > 1 && Run(nodes, b, n, tailNext)
    ensures Run(nodes, b + 1, n - 1, tailNext)
  {
  }

  /** One step of `WalkRun`: a node linked to the next index extends the walk from there by itself. */
  lemma WalkRunStep<T>(nodes: seq<LNode<T>>, s: nat, j: nat, m: nat, rest: seq<nat>)
    requires j >= 2 && s < |nodes| && nodes[s].next == At(s + 1)
    requires Walk(nodes, At(s + 1), j - 1 + m) == Range(s + 1, j - 1) + rest
    ensures Walk(nodes, At(s), j + m) == Range(s, j) + rest
  {
    WalkCons(nodes, s, j + m);
    RangeCons(s, j);
    ConsAssoc(s, Range(s + 1, j - 1), rest);
  }

  lemma RangeCons(s: nat, j: nat)
    requires j >= 1
    ensures Range(s, j) == [s] + Range(s + 1, j - 1)
  {
  }

  lemma ConsAssoc<E>(x: E, a: seq<E>, b: seq<E>)
    ensures [x] + (a + b) == ([x] + a) + b
  {
  }

  lemma RunNext<T>(nodes: seq<LNode<T>>, b: nat, n: nat, tailNext: Link, s: nat)
    requires Run(nodes, b, n, tailNext) && b <= s < b + n
    ensures s < |nodes| && nodes[s].next == if s + 1 < b + n then At(s + 1) else tailNext
  {
  }

  /** A walk of at least two steps from a node is that node followed by the walk from its successor. */
  lemma WalkCons<T>(nodes: seq<LNode<T>>, s: nat, k: nat)
    requires s < |nodes| && k >= 2
    ensures Walk(nodes, At(s), k) == [s] + Walk(nodes, nodes[s].next, k - 1)
  {
  }

  /** A walk that stays inside a store is unchanged when the store is extended. */
  lemma {:induction false} WalkPrefix<T>(nodes: seq<LNode<T>>, big: seq<LNode<T>>, cur: Link, n: nat)
    requires |Walk(nodes, cur, n)| == n && |nodes| <= |big| && big[..|nodes|] == nodes
    ensures Walk(big, cur, n) == Walk(nodes, cur, n)
    decreases n
  {
    if n > 0 {
      assert big[cur.index] == nodes[cur.index];
      if n > 1 {
        WalkPrefix(nodes, big, nodes[cur.index].next, n - 1);
      }
    }
  }

  /** The walk never follows the `next` of its last node, so rewriting that node leaves it unchanged. */
  lemma {:induction false} WalkLastUpdate<T>(nodes: seq<LNode<T>>, cur: Link, n: nat, x: LNode<T>)
    requires n >= 1 && |Walk(nodes, cur, n)| == n && Distinct(Walk(nodes, cur, n))
    ensures Walk(nodes[Walk(nodes, cur, n)[n - 1] := x], cur, n) == Walk(nodes, cur, n)
    decreases n
  {
    var w := Walk(nodes, cur, n);
    var t := w[n - 1];
    if n > 1 {
      assert w == [cur.index] + Walk(nodes, nodes[cur.index].next, n - 1);
      var w' := Walk(nodes, nodes[cur.index].next, n - 1);
      assert w'[n - 2] == t;
      assert Distinct(w') by {
        forall i, j | 0 <= i < j < |w'| ensures w'[i] != w'[j] {
          assert w'[i] == w[i + 1] && w'[j] == w[j + 1];
        }
      }
      WalkLastUpdate(nodes, nodes[cur.index].next, n - 1, x);
      assert cur.index != t by { assert w[0] == cur.index; }
    }
  }

  // ---------------------------------------------------------------------
  // Traversal

  /**
   * `forEach`: visits nodes from the head until the link is `null` or leads
   * back to the head. On a valid list every node is visited exactly once, in
   * order; the visited nodes are returned in place of the callback's effects.
   */
  method ForEach<T>(l: LList<T>) returns (visited: seq<nat>)
    requires Valid(l)
    ensures visited == Chain(l)
  {
    ghost var ps := Chain(l);
    visited := [];
    var current := l.head;
    while current != Null
      invariant |visited| <= l.size && visited == ps[..|visited|]
      invariant |visited| < l.size ==> current == At(ps[|visited|])
      invariant |visited| == l.size ==> current.Null?
      decreases l.size - |visited|
    {
      var i := current.index;
      visited := visited + [i];
      current := l.nodes[i].next;
      assert |visited| < l.size ==> current != l.head by {
        if |visited| < l.size {
          assert ps[|visited|] != ps[0];
        }
      }
      if current == l.head {
        break;
      }
    }
    assert visited == ps;
  }

  /** `map`: the callback's result for each node, in order. */
  method Map<T, U>(l: LList<T>, f: LNode<T> -> U) returns (mapped: seq<U>)
    requires Valid(l)
    ensures |mapped| == l.size
    ensures forall k :: 0 <= k < l.size ==> mapped[k] == f(l.nodes[Chain(l)[k]])
  {
    var visited := ForEach(l);
    mapped := [];
    for k := 0 to |visited|
      invariant |mapped| == k
      invariant forall j :: 0 <= j < k ==> mapped[j] == f(l.nodes[visited[j]])
    {
      mapped := mapped + [f(l.nodes[visited[k]])];
    }
  }

  /** The indexes of `ps` that satisfy `keep`, in order. */
  function Keep(ps: seq<nat>, keep: nat -> bool): (kept: seq<nat>)
    ensures |kept| <= |ps|
    ensures forall j :: 0 <= j < |kept| ==> kept[j] in ps && keep(kept[j])
  {
    if ps == [] then []
    else Keep(ps[..|ps| - 1], keep) + (if keep(ps[|ps| - 1]) then [ps[|ps| - 1]] else [])
  }

  /** `filter`: the nodes the predicate accepts, in order. */
  method Filter<T>(l: LList<T>, keep: nat -> bool) returns (kept: seq<nat>)
    requires Valid(l)
    ensures kept == Keep(Chain(l), keep)
  {
    var visited := ForEach(l);
    kept := [];
    for k := 0 to |visited|
      invariant kept == Keep(visited[..k], keep)
    {
      if keep(visited[k]) {
        kept := kept + [visited[k]];
      }
      assert visited[..k + 1][..k] == visited[..k];
    }
    assert visited[..|visited|] == visited;
  }

  /** Keeping every index except the one at position `k` of a repetition-free sequence removes exactly that position. */
  lemma {:induction false} KeepAllBut(ps: seq<nat>, keep: nat -> bool, k: nat)
    requires Distinct(ps) && k < |ps| && forall i: nat :: keep(i) == (i != ps[k])
    ensures Keep(ps, keep) == RemovedAt(ps, k)
    decreases |ps|
  {
    var init, last := ps[..|ps| - 1], ps[|ps| - 1];
    assert ps == init + [last];
    if k == |ps| - 1 {
      forall j | 0 <= j < |init| ensures keep(init[j]) {
        assert ps[j] != ps[k];
      }
      KeepAll(init, keep);
      assert RemovedAt(ps, k) == init;
    } else {
      assert Distinct(init) && init[k] == ps[k] && keep(last);
      KeepAllBut(init, keep, k);
      RemovedAtSnoc(init, k, last);
    }
  }

  lemma RemovedAtSnoc<E>(s: seq<E>, k: nat, x: E)
    requires k < |s|
    ensures RemovedAt(s + [x], k) == RemovedAt(s, k) + [x]
  {
  }

  /** Only the last node of a valid list points at the sentinel. */
  lemma KeepLast<T>(l: LList<T>, sentinel: Link)
    requires Valid(l) && l.size > 0
    requires sentinel == if l.circular then l.head else Null
    ensures Keep(Chain(l), (i: nat) => i < |l.nodes| && l.nodes[i].next == sentinel) == [Chain(l)[l.size - 1]]
  {
    var ps := Chain(l);
    var keep := (i: nat) => i < |l.nodes| && l.nodes[i].next == sentinel;
    assert keep(ps[l.size - 1]);
    KeepNone(ps[..l.size - 1], keep, l);
    assert ps == ps[..l.size - 1] + [ps[l.size - 1]];
  }

  lemma {:induction false} KeepNone<T>(qs: seq<nat>, keep: nat -> bool, l: LList<T>)
    requires Valid(l) && |qs| < l.size && qs == Chain(l)[..|qs|]
    requires forall i: nat :: keep(i) <==> i < |l.nodes| && l.nodes[i].next == if l.circular then l.head else Null
    ensures Keep(qs, keep) == []
    decreases |qs|
  {
    if qs != [] {
      var ps := Chain(l);
      var k := |qs| - 1;
      assert l.nodes[ps[k]].next == At(ps[k + 1]);
      assert ps[k + 1] != ps[0];
      KeepNone(qs[..k], keep, l);
    }
  }

  /**
   * The `tail` getter: `Null` when `size < 1`, otherwise the first node whose
   * `next` is the sentinel (the head in a circular list, `null` otherwise),
   * which on a valid list is its last node.
   */
  method Tail<T>(l: LList<T>) returns (t: Link)
    requires Valid(l)
    ensures l.size == 0 ==> t.Null?
    ensures l.size > 0 ==> t == At(Chain(l)[l.size - 1])
  {
    var sentinel := if l.circular then l.head else Null;
    if l.size < 1 {
      return Null;
    }
    var kept := Filter(l, (i: nat) => i < |l.nodes| && l.nodes[i].next == sentinel);
    KeepLast(l, sentinel);
    t := if |kept| > 0 then At(kept[0]) else Null;
  }

  /** `isEmpty`: the size is not positive; on a valid list, there is no data. */
  function IsEmpty<T>(l: LList<T>): (r: bool)
    ensures r <==> l.size == 0
    ensures Valid(l) ==> (r <==> Data(l) == [])
  {
    l.size <= 0
  }

  /** `getData`: the data of a node, or the error value for anything that is not a node. */
  function GetData<T>(l: LList<T>, node: Link): (r: Result<T, Error>)
    ensures r.Failure? <==> node.Null? || node.index >= |l.nodes|
    ensures r.Failure? ==> r.error == NotANode
    ensures r.Success? ==> r.value == l.nodes[node.index].data
  {
    if node.At? && node.index < |l.nodes| then Success(l.nodes[node.index].data) else Failure(NotANode)
  }

  /** `map(getData)`: the data of the list, in order. */
  method MapData<T>(l: LList<T>) returns (data: seq<T>)
    requires Valid(l)
    ensures data == Data(l)
  {
    data := Map(l, (n: LNode<T>) => n.data);
  }

  // ---------------------------------------------------------------------
  // The constructor

  lemma FreshRun<T>(nodes: seq<LNode<T>>, b: nat, items: seq<T>)
    requires |nodes| == b + |items| && nodes[b..] == MakeHead(items, b)
    ensures Run(nodes, b, |items|, Null)
    ensures forall j :: b <= j < b + |items| ==> nodes[j].data == items[j - b]
  {
    forall j | b <= j < b + |items| ensures nodes[j] == MakeHead(items, b)[j - b] {
      assert nodes[b..][j - b] == nodes[j];
    }
  }

  /** The list of fresh nodes built from `items` at `b`, before any prepending. */
  lemma FreshValid<T>(nodes: seq<LNode<T>>, b: nat, items: seq<T>)
    requires |nodes| == b + |items| && nodes[b..] == MakeHead(items, b)
    ensures var l := LList(nodes, if |items| == 0 then Null else At(b), |items|, false);
      Valid(l) && Chain(l) == Range(b, |items|) && Data(l) == items
  {
    var n := |items|;
    var l := LList(nodes, if n == 0 then Null else At(b), n, false);
    FreshRun(nodes, b, items);
    if n > 0 {
      RunChain(nodes, b, n);
      assert nodes[b + n - 1].next == Null;
    }
    assert Chain(l) == Range(b, n);
    RangeDistinct(b, n);
    FreshData(nodes, b, items);
  }

  /** Walking a run that ends at `null` from its first node visits exactly the run. */
  lemma RunChain<T>(nodes: seq<LNode<T>>, b: nat, n: nat)
    requires n > 0 && Run(nodes, b, n, Null)
    ensures Walk(nodes, At(b), n) == Range(b, n)
  {
    WalkRun(nodes, b, n, Null, 0);
    assert Walk(nodes, Null, 0) == [];
    assert Range(b, n) + [] == Range(b, n);
  }

  lemma RangeDistinct(b: nat, n: nat)
    ensures Distinct(Range(b, n))
  {
  }

  /** The fresh nodes at `b` hold the items, in order. */
  lemma FreshData<T>(nodes: seq<LNode<T>>, b: nat, items: seq<T>)
    requires |nodes| == b + |items| && nodes[b..] == MakeHead(items, b)
    ensures DataAt(nodes, Range(b, |items|)) == items
  {
    forall k | 0 <= k < |items| ensures nodes[b + k].data == items[k] {
      assert nodes[b..][k] == nodes[b + k];
    }
  }

  /** A run of fresh indexes at or above `b`, followed by indexes below it, repeats nothing. */
  lemma DistinctJoin(b: nat, n: nat, qs: seq<nat>)
    requires Distinct(qs) && forall k :: 0 <= k < |qs| ==> qs[k] < b
    ensures Distinct(Range(b, n) + qs)
  {
    var ps := Range(b, n) + qs;
    forall i, j | 0 <= i < j < |ps| ensures ps[i] != ps[j] {
      if j >= n && i < n {
        assert ps[j] == qs[j - n];
      } else if i >= n {
        assert ps[i] == qs[i - n] && ps[j] == qs[j - n];
      }
    }
  }

  lemma PrependedChain<T>(prev: LList<T>, nodes: seq<LNode<T>>, n: nat)
    requires Valid(prev) && prev.head.At? && n > 0
    requires |nodes| == |prev.nodes| + n && nodes[..|prev.nodes|] == prev.nodes
    requires Run(nodes, |prev.nodes|, n, prev.head)
    ensures Chain(LList(nodes, At(|prev.nodes|), n + prev.size, false)) == Range(|prev.nodes|, n) + Chain(prev)
  {
    WalkRun(nodes, |prev.nodes|, n, prev.head, prev.size);
    WalkPrefix(prev.nodes, nodes, prev.head, prev.size);
  }

  /** The data held by a run of nodes. */
  function NodeData<T>(ns: seq<LNode<T>>): (d: seq<T>)
    ensures |d| == |ns| && forall k :: 0 <= k < |ns| ==> d[k] == ns[k].data
  {
    seq(|ns|, k requires 0 <= k < |ns| => ns[k].data)
  }

  lemma PrependedData<T>(prev: LList<T>, nodes: seq<LNode<T>>, items: seq<T>)
    requires Valid(prev)
    requires |nodes| == |prev.nodes| + |items| && nodes[..|prev.nodes|] == prev.nodes
    requires NodeData(nodes[|prev.nodes|..]) == items
    ensures DataAt(nodes, Range(|prev.nodes|, |items|) + Chain(prev)) == items + Data(prev)
  {
    var b, n := |prev.nodes|, |items|;
    var ps := Range(b, n) + Chain(prev);
    forall k | 0 <= k < |ps| ensures nodes[ps[k]].data == (items + Data(prev))[k] {
      if k >= n {
        assert ps[k] == Chain(prev)[k - n] && nodes[ps[k]] == prev.nodes[ps[k]];
      } else {
        assert nodes[b..][k] == nodes[ps[k]];
      }
    }
  }

  /** After the fresh run is linked to the old head, the chain is the run followed by the old chain. */
  lemma PrependedValid<T>(prev: LList<T>, nodes: seq<LNode<T>>, items: seq<T>)
    requires Valid(prev) && !prev.circular && prev.head.At? && |items| > 0
    requires |nodes| == |prev.nodes| + |items| && nodes[..|prev.nodes|] == prev.nodes
    requires NodeData(nodes[|prev.nodes|..]) == items
    requires Run(nodes, |prev.nodes|, |items|, prev.head)
    ensures var l := LList(nodes, At(|prev.nodes|), |items| + prev.size, false);
      Valid(l) && Chain(l) == Range(|prev.nodes|, |items|) + Chain(prev) && Data(l) == items + Data(prev)
  {
    var b, n := |prev.nodes|, |items|;
    var l := LList(nodes, At(b), n + prev.size, false);
    PrependedChain(prev, nodes, n);
    DistinctJoin(b, n, Chain(prev));
    PrependedData(prev, nodes, items);
    var ps := Chain(l);
    assert ps[l.size - 1] == Chain(prev)[prev.size - 1];
    assert l.nodes[ps[l.size - 1]] == prev.nodes[Chain(prev)[prev.size - 1]];
  }

  /** Closing a valid non-circular list into a circle keeps its chain and data. */
  lemma ClosedValid<T>(l: LList<T>)
    requires Valid(l) && !l.circular && l.size > 0
    ensures var t := Chain(l)[l.size - 1];
      var c := l.(nodes := l.nodes[t := l.nodes[t].(next := l.head)], circular := true);
      Valid(c) && Chain(c) == Chain(l) && Data(c) == Data(l)
  {
    var t := Chain(l)[l.size - 1];
    WalkLastUpdate(l.nodes, l.head, l.size, l.nodes[t].(next := l.head));
  }

  /**
   * The `prependTo` step of the constructor, on the list `l` of fresh nodes
   * built at the end of `prev`'s store: with no fresh node the head becomes
   * `prev`'s head, otherwise the tail is linked to it; the sizes add up.
   */
  method PrependTo<T>(l: LList<T>, items: seq<T>, prev: LList<T>) returns (r: LList<T>)
    requires Valid(prev) && !prev.circular && prev.head.At?
    requires l == LList(prev.nodes + MakeHead(items, |prev.nodes|), if |items| == 0 then Null else At(|prev.nodes|), |items|, false)
    ensures Valid(r) && !r.circular
    ensures Data(r) == items + Data(prev) && r.size == |items| + prev.size
    ensures |r.nodes| >= |prev.nodes| && r.nodes[..|prev.nodes|] == prev.nodes
    ensures Chain(r)[|items|..] == Chain(prev)
    ensures Chain(r)[r.size - 1] < |prev.nodes|
  {
    var b := |prev.nodes|;
    var nodes := l.nodes;
    assert nodes[b..] == MakeHead(items, b) && nodes[..b] == prev.nodes;
    FreshValid(nodes, b, items);
    if |items| == 0 {
      assert nodes == prev.nodes;
      r := l.(head := prev.head, size := prev.size);
      assert r == prev;
    } else {
      var tail := Tail(l);
      var t := tail.index;
      Relinked(nodes, b, items, prev.head, t);
      var linked := nodes[t := nodes[t].(next := prev.head)];
      PrependedValid(prev, linked, items);
      r := LList(linked, At(b), |items| + prev.size, false);
      assert Chain(r)[|items|..] == Chain(prev);
    }
  }

  /** Pointing the last node `t` of a fresh run elsewhere keeps the run, the data and the nodes before it. */
  lemma Relinked<T>(nodes: seq<LNode<T>>, b: nat, items: seq<T>, x: Link, t: nat)
    requires |items| > 0 && |nodes| == b + |items| && nodes[b..] == MakeHead(items, b) && t == b + |items| - 1
    ensures Run(nodes[t := nodes[t].(next := x)], b, |items|, x)
    ensures nodes[t := nodes[t].(next := x)][..b] == nodes[..b]
    ensures NodeData(nodes[t := nodes[t].(next := x)][b..]) == items
  {
    FreshRun(nodes, b, items);
    var linked := nodes[t := nodes[t].(next := x)];
    forall k | 0 <= k < |items| ensures linked[b..][k].data == items[k] {
      assert linked[b..][k] == linked[b + k];
    }
  }

  /**
   * The `circular` step of the constructor, as written: the node the `tail`
   * getter finds is linked back to the head. With no node this assigns
   * through `null`; a node below `frozenBelow` belongs to a prepended list,
   * whose constructor froze it. Both fail.
   */
  method CloseCircle<T>(l: LList<T>, frozenBelow: nat) returns (r: Result<LList<T>, Error>)
    requires Valid(l) && !l.circular
    ensures l.size == 0 ==> r == Failure(NullTail)
    ensures l.size > 0 && Chain(l)[l.size - 1] < frozenBelow ==> r == Failure(FrozenNode)
    ensures l.size > 0 && Chain(l)[l.size - 1] >= frozenBelow ==>
      r.Success? && Valid(r.value) && r.value.circular && Data(r.value) == Data(l) && r.value.size == l.size
  {
    var tail := Tail(l);
    if tail.Null? {
      return Failure(NullTail);
    }
    if tail.index < frozenBelow {
      return Failure(FrozenNode);
    }
    ClosedValid(l);
    r := Success(l.(nodes := l.nodes[tail.index := l.nodes[tail.index].(next := l.head)], circular := true));
  }

  /**
   * `new LList(itemOrList, {circular, prependTo})`: builds fresh nodes for
   * the items, prepends them to `prependTo` when that is a non-empty list,
   * and closes the circle when `circular` is set.
   */
  method NewLList<T>(itemOrList: ItemOrList<T>, circular: bool, prependTo: Option<LList<T>>)
    returns (r: Result<LList<T>, Error>)
    requires prependTo.Some? ==> Valid(prependTo.value) && !prependTo.value.circular
    ensures r.Success? ==> Valid(r.value) && r.value.circular == circular
    ensures !(prependTo.Some? && prependTo.value.head.At?) ==>
      if circular && |ConvertToSeq(itemOrList)| == 0 then r == Failure(NullTail)
      else r.Success? && Data(r.value) == ConvertToSeq(itemOrList) && r.value.size == |ConvertToSeq(itemOrList)|
    ensures prependTo.Some? && prependTo.value.head.At? && circular ==> r == Failure(FrozenNode)
    ensures prependTo.Some? && prependTo.value.head.At? && !circular ==>
      var prev := prependTo.value;
      && r.Success?
      && Data(r.value) == ConvertToSeq(itemOrList) + Data(prev)
      && r.value.size == |ConvertToSeq(itemOrList)| + prev.size
      && |r.value.nodes| >= |prev.nodes| && r.value.nodes[..|prev.nodes|] == prev.nodes
      && Chain(r.value)[|ConvertToSeq(itemOrList)|..] == Chain(prev)
  {
    var items := ConvertToSeq(itemOrList);
    if prependTo.Some? && prependTo.value.head.At? {
      r := NewPrepended(items, circular, prependTo.value);
    } else {
      r := NewFresh(items, circular);
    }
  }

  /** `makeHead` on the items, as the head of a new non-circular list. */
  function Fresh<T>(items: seq<T>): (l: LList<T>)
    ensures Valid(l) && !l.circular && Data(l) == items && l.size == |items|
  {
    var nodes := MakeHead(items, 0);
    assert nodes[0..] == nodes;
    FreshValid(nodes, 0, items);
    LList(nodes, if |items| == 0 then Null else At(0), |items|, false)
  }

  /** The constructor without a list to prepend to: fresh nodes from index 0, closed when `circular` is set. */
  method NewFresh<T>(items: seq<T>, circular: bool) returns (r: Result<LList<T>, Error>)
    ensures r.Success? ==> Valid(r.value) && r.value.circular == circular
    ensures if circular && |items| == 0 then r == Failure(NullTail)
      else r.Success? && Data(r.value) == items && r.value.size == |items|
  {
    var l := Fresh(items);
    if circular {
      r := CloseCircle(l, 0);
    } else {
      r := Success(l);
    }
  }

  /**
   * The constructor with a non-empty list `prev` to prepend to: fresh nodes
   * after `prev`'s store, linked to its head. Closing the circle would
   * write to `prev`'s frozen last node.
   */
  method NewPrepended<T>(items: seq<T>, circular: bool, prev: LList<T>) returns (r: Result<LList<T>, Error>)
    requires Valid(prev) && !prev.circular && prev.head.At?
    ensures circular ==> r == Failure(FrozenNode)
    ensures !circular ==>
      && r.Success? && Valid(r.value) && !r.value.circular
      && Data(r.value) == items + Data(prev)
      && r.value.size == |items| + prev.size
      && |r.value.nodes| >= |prev.nodes| && r.value.nodes[..|prev.nodes|] == prev.nodes
      && Chain(r.value)[|items|..] == Chain(prev)
  {
    var base := |prev.nodes|;
    var nodes := prev.nodes + MakeHead(items, base);
    var l := LList(nodes, if |items| == 0 then Null else At(base), |items|, false);
    l := PrependTo(l, items, prev);
    if circular {
      r := CloseCircle(l, base);
    } else {
      r := Success(l);
    }
  }

  // ---------------------------------------------------------------------
  // List operations

  /**
   * `prepend(x)`: a circular list is rebuilt from `x`'s items followed by its
   * data; otherwise the new list is built in front of this one and shares
   * all of its nodes.
   */
  method Prepend<T>(l: LList<T>, x: ItemOrList<T>) returns (r: Result<LList<T>, Error>)
    requires Valid(l)
    ensures r.Success? && Valid(r.value) && r.value.circular == l.circular
    ensures Data(r.value) == ConvertToSeq(x) + Data(l)
    ensures r.value.size == |ConvertToSeq(x)| + l.size
    ensures !l.circular && l.size > 0 ==>
      |r.value.nodes| >= |l.nodes| && r.value.nodes[..|l.nodes|] == l.nodes && Chain(r.value)[|ConvertToSeq(x)|..] == Chain(l)
  {
    if l.circular {
      var items := ConvertToSeq(x);
      var data := MapData(l);
      r := NewLList(Items(items + data), l.circular, None);
    } else {
      r := NewLList(x, l.circular, Some(l));
    }
  }

  /** `append(x)`: a list of this list's data followed by `x`'s items, with the same circular flag. */
  method Append<T>(l: LList<T>, x: ItemOrList<T>) returns (r: Result<LList<T>, Error>)
    requires Valid(l)
    ensures r.Success? && Valid(r.value) && r.value.circular == l.circular
    ensures Data(r.value) == Data(l) + ConvertToSeq(x)
  {
    var data := MapData(l);
    r := NewLList(Items(data + ConvertToSeq(x)), l.circular, None);
  }

  /** The sequence in reverse order. */
  function Reversed<T>(s: seq<T>): (r: seq<T>)
    ensures |r| == |s|
  {
    if s == [] then [] else [s[|s| - 1]] + Reversed(s[..|s| - 1])
  }

  lemma {:induction false} ReversedAt<T>(s: seq<T>)
    ensures forall k :: 0 <= k < |s| ==> Reversed(s)[k] == s[|s| - 1 - k]
    decreases |s|
  {
    if s != [] {
      ReversedAt(s[..|s| - 1]);
    }
  }

  /** Reversing twice gives the sequence back. */
  lemma ReversedTwice<T>(s: seq<T>)
    ensures Reversed(Reversed(s)) == s
  {
    ReversedAt(s);
    ReversedAt(Reversed(s));
  }

  /** `reverse`: the data is collected by unshifting each element, and a list is built from it. */
  method Reverse<T>(l: LList<T>) returns (r: Result<LList<T>, Error>)
    requires Valid(l)
    ensures r.Success? && Valid(r.value) && r.value.circular == l.circular
    ensures Data(r.value) == Reversed(Data(l))
  {
    var data := MapData(l);
    var reversed := [];
    for k := 0 to |data|
      invariant reversed == Reversed(data[..k])
    {
      reversed := [data[k]] + reversed;
      assert data[..k + 1][..k] == data[..k];
    }
    assert data[..|data|] == data;
    r := NewLList(Items(reversed), l.circular, None);
  }

  /** The sequence without its element at position `k`. */
  function RemovedAt<T>(s: seq<T>, k: nat): (r: seq<T>)
    requires k < |s|
    ensures |r| == |s| - 1
    ensures forall j :: 0 <= j < |r| ==> r[j] == if j < k then s[j] else s[j + 1]
  {
    s[..k] + s[k + 1..]
  }

  lemma {:induction false} KeepAll(ps: seq<nat>, keep: nat -> bool)
    requires forall j :: 0 <= j < |ps| ==> keep(ps[j])
    ensures Keep(ps, keep) == ps
    decreases |ps|
  {
    if ps != [] {
      KeepAll(ps[..|ps| - 1], keep);
      assert ps == ps[..|ps| - 1] + [ps[|ps| - 1]];
    }
  }

  lemma KeepOthersIn(ps: seq<nat>, keep: nat -> bool, n: Link)
    requires Distinct(ps) && forall i: nat :: keep(i) == (At(i) != n)
    ensures forall k :: 0 <= k < |ps| && n == At(ps[k]) ==> Keep(ps, keep) == RemovedAt(ps, k)
    ensures !(n.At? && n.index in ps) ==> Keep(ps, keep) == ps
  {
    forall k | 0 <= k < |ps| && n == At(ps[k]) ensures Keep(ps, keep) == RemovedAt(ps, k) {
      KeepAllBut(ps, keep, k);
    }
    if !(n.At? && n.index in ps) {
      KeepAll(ps, keep);
    }
  }

  lemma DataRemovedAt<T>(nodes: seq<LNode<T>>, ps: seq<nat>, k: nat)
    requires k < |ps| && forall j :: 0 <= j < |ps| ==> ps[j] < |nodes|
    ensures DataAt(nodes, RemovedAt(ps, k)) == RemovedAt(DataAt(nodes, ps), k)
  {
  }

  /**
   * Filtering out one node of a valid list keeps the others in order, so the
   * data loses exactly that node's position; a node that is not on the
   * chain (or `Null`) filters out nothing.
   */
  lemma KeepOthers<T>(l: LList<T>, keep: nat -> bool, n: Link)
    requires Valid(l) && forall i: nat :: keep(i) == (At(i) != n)
    ensures forall k :: 0 <= k < l.size && n == At(Chain(l)[k]) ==>
      DataAt(l.nodes, Keep(Chain(l), keep)) == RemovedAt(Data(l), k)
    ensures !(n.At? && n.index in Chain(l)) ==> Keep(Chain(l), keep) == Chain(l)
  {
    var ps := Chain(l);
    KeepOthersIn(ps, keep, n);
    forall k | 0 <= k < l.size && n == At(ps[k])
      ensures DataAt(l.nodes, Keep(ps, keep)) == RemovedAt(Data(l), k)
    {
      DataRemovedAt(l.nodes, ps, k);
    }
  }

  /** `removeHead`: a list of the data of every node but the head, with the same circular flag. */
  method RemoveHead<T>(l: LList<T>) returns (r: Result<LList<T>, Error>)
    requires Valid(l)
    ensures l.circular && l.size == 1 ==> r == Failure(NullTail)
    ensures !(l.circular && l.size == 1) ==>
      r.Success? && Valid(r.value) && r.value.circular == l.circular
      && Data(r.value) == if l.size == 0 then [] else Data(l)[1..]
  {
    var notFirst := (i: nat) => At(i) != l.head;
    var kept := Filter(l, notFirst);
    KeepOthers(l, notFirst, l.head);
    if l.size > 0 {
      assert l.head == At(Chain(l)[0]);
    }
    var data := DataAt(l.nodes, kept);
    r := NewLList(Items(data), l.circular, None);
  }

  /** `removeTail`: a list of the data of every node but the tail, with the same circular flag. */
  method RemoveTail<T>(l: LList<T>) returns (r: Result<LList<T>, Error>)
    requires Valid(l)
    ensures l.circular && l.size == 1 ==> r == Failure(NullTail)
    ensures !(l.circular && l.size == 1) ==>
      r.Success? && Valid(r.value) && r.value.circular == l.circular
      && Data(r.value) == if l.size == 0 then [] else Data(l)[..l.size - 1]
  {
    var tail := Tail(l);
    var notLast := (i: nat) => At(i) != tail;
    var kept := Filter(l, notLast);
    KeepOthers(l, notLast, tail);
    var data := DataAt(l.nodes, kept);
    r := NewLList(Items(data), l.circular, None);
  }
}
