/**
 * The persistent circular list: a linked list built with `circular` set,
 * whose operations each build a new circular list from the data of the
 * nodes they keep or add.
 */
module CircularList {
  import opened Wrappers
  import opened LinkedList

  /** The options object handed to a constructor; the circular constructor writes to it. */
  class Options<T> {
    var circular: bool
    var prependTo: Option<LList<T>>

    constructor (prependTo: Option<LList<T>>)
      ensures !circular && this.prependTo == prependTo
    {
      circular := false;
      this.prependTo := prependTo;
    }
  }

  /**
   * `new CLList(itemOrList, options)`: sets `circular` on the caller's
   * options object, then runs the list constructor with it. An empty item
   * list cannot be closed into a circle, and neither can a list prepended to
   * another.
   */
  method NewCLList<T>(itemOrList: ItemOrList<T>, options: Options<T>) returns (r: Result<LList<T>, Error>)
    requires options.prependTo.Some? ==> Valid(options.prependTo.value) && !options.prependTo.value.circular
    modifies options
    ensures options.circular && options.prependTo == old(options.prependTo)
    ensures r.Success? ==> Valid(r.value) && r.value.circular
    ensures options.prependTo.Some? && options.prependTo.value.head.At? ==> r == Failure(FrozenNode)
    ensures !(options.prependTo.Some? && options.prependTo.value.head.At?) ==>
      if |ConvertToSeq(itemOrList)| == 0 then r == Failure(NullTail)
      else r.Success? && Data(r.value) == ConvertToSeq(itemOrList)
  {
    options.circular := true;
    r := NewLList(itemOrList, options.circular, options.prependTo);
  }

  /** A circular list of the given data, built with a fresh options object. */
  method FromData<T>(data: seq<T>) returns (r: Result<LList<T>, Error>)
    ensures |data| == 0 ==> r == Failure(NullTail)
    ensures |data| > 0 ==> r.Success? && Valid(r.value) && r.value.circular && Data(r.value) == data
  {
    var options := new Options(None);
    r := NewCLList(Items(data), options);
  }

  /**
   * `remove(n)`: a circular list of the data of every node but `n`.
   * Removing the only node leaves nothing to close into a circle.
   */
  method Remove<T>(l: LList<T>, n: Link) returns (r: Result<LList<T>, Error>)
    requires Valid(l) && l.circular
    ensures forall k :: 0 <= k < l.size && n == At(Chain(l)[k]) ==>
      if l.size == 1 then r == Failure(NullTail)
      else (r.Success? && Valid(r.value) && r.value.circular && Data(r.value) == RemovedAt(Data(l), k))
    ensures !(n.At? && n.index in Chain(l)) ==>
      r.Success? && Valid(r.value) && r.value.circular && Data(r.value) == Data(l)
  {
    var notNode := (i: nat) => At(i) != n;
    var kept := Filter(l, notNode);
    KeepOthers(l, notNode, n);
    var data := DataAt(l.nodes, kept);
    r := FromData(data);
  }

  /** The position after `k` in a circle of `size` positions. */
  function Succ(k: nat, size: nat): (s: nat)
    requires k < size
    ensures s < size
  {
    if k + 1 == size then 0 else k + 1
  }

  /** The position before `k` in a circle of `size` positions. */
  function Pred(k: nat, size: nat): (p: nat)
    requires k < size
    ensures p < size
  {
    if k == 0 then size - 1 else k - 1
  }

  /** In a circular list, the node at position `i` links to the next position, the last one to the head. */
  lemma NextInChain<T>(l: LList<T>, i: nat)
    requires Valid(l) && l.circular && i < l.size
    ensures l.nodes[Chain(l)[i]].next == At(Chain(l)[Succ(i, l.size)])
  {
  }

  /** `removeAfter(n)`: removes the node `n` links to, which for a node of the list is its successor. */
  method RemoveAfter<T>(l: LList<T>, n: nat) returns (r: Result<LList<T>, Error>)
    requires Valid(l) && l.circular && n < |l.nodes|
    ensures forall k :: 0 <= k < l.size && n == Chain(l)[k] ==>
      if l.size == 1 then r == Failure(NullTail)
      else (r.Success? && Valid(r.value) && r.value.circular && Data(r.value) == RemovedAt(Data(l), Succ(k, l.size)))
  {
    r := Remove(l, l.nodes[n].next);
    forall k | 0 <= k < l.size && n == Chain(l)[k]
      ensures if l.size == 1 then r == Failure(NullTail)
        else (r.Success? && Valid(r.value) && r.value.circular && Data(r.value) == RemovedAt(Data(l), Succ(k, l.size)))
    {
      NextInChain(l, k);
    }
  }

  lemma {:induction false} KeepNothing(ps: seq<nat>, keep: nat -> bool)
    requires forall i :: 0 <= i < |ps| ==> !keep(ps[i])
    ensures Keep(ps, keep) == []
    decreases |ps|
  {
    if ps != [] {
      KeepNothing(ps[..|ps| - 1], keep);
    }
  }

  lemma {:induction false} KeepOne(ps: seq<nat>, keep: nat -> bool, j: nat)
    requires j < |ps| && keep(ps[j])
    requires forall i :: 0 <= i < |ps| && i != j ==> !keep(ps[i])
    ensures Keep(ps, keep) == [ps[j]]
    decreases |ps|
  {
    var last := |ps| - 1;
    if j == last {
      KeepNothing(ps[..last], keep);
    } else {
      KeepOne(ps[..last], keep, j);
    }
  }

  /** In a circular list, the only node that links to the node at position `k` is at `Pred(k)`. */
  lemma PredecessorOnly<T>(l: LList<T>, keep: nat -> bool, n: Link, k: nat)
    requires Valid(l) && l.circular && k < l.size && n == At(Chain(l)[k])
    requires forall i: nat :: keep(i) == (i < |l.nodes| && l.nodes[i].next == n)
    ensures Keep(Chain(l), keep) == [Chain(l)[Pred(k, l.size)]]
  {
    var ps := Chain(l);
    var j := Pred(k, l.size);
    NextInChain(l, j);
    forall i | 0 <= i < l.size && i != j ensures !keep(ps[i]) {
      NextInChain(l, i);
      assert ps[Succ(i, l.size)] != ps[k];
    }
    KeepOne(ps, keep, j);
  }

  /** In a circular list, no node links to anything but a node of the chain. */
  lemma NoPredecessor<T>(l: LList<T>, keep: nat -> bool, n: Link)
    requires Valid(l) && l.circular && !(n.At? && n.index in Chain(l))
    requires forall i: nat :: keep(i) == (i < |l.nodes| && l.nodes[i].next == n)
    ensures Keep(Chain(l), keep) == []
  {
    var ps := Chain(l);
    forall i | 0 <= i < l.size ensures !keep(ps[i]) {
      NextInChain(l, i);
    }
    KeepNothing(ps, keep);
  }

  /**
   * `removeBefore(n)`: removes the first node that links to `n`, which for
   * a node of the list is its predecessor; when no node links to `n`
   * nothing is removed.
   */
  method RemoveBefore<T>(l: LList<T>, n: Link) returns (r: Result<LList<T>, Error>)
    requires Valid(l) && l.circular
    ensures forall k :: 0 <= k < l.size && n == At(Chain(l)[k]) ==>
      if l.size == 1 then r == Failure(NullTail)
      else (r.Success? && Valid(r.value) && r.value.circular && Data(r.value) == RemovedAt(Data(l), Pred(k, l.size)))
    ensures !(n.At? && n.index in Chain(l)) ==>
      r.Success? && Valid(r.value) && r.value.circular && Data(r.value) == Data(l)
  {
    var isTarget := (i: nat) => i < |l.nodes| && l.nodes[i].next == n;
    var targets := Filter(l, isTarget);
    var target := if |targets| > 0 then At(targets[0]) else Null;
    r := Remove(l, target);
    forall k | 0 <= k < l.size && n == At(Chain(l)[k])
      ensures if l.size == 1 then r == Failure(NullTail)
        else (r.Success? && Valid(r.value) && r.value.circular && Data(r.value) == RemovedAt(Data(l), Pred(k, l.size)))
    {
      PredecessorOnly(l, isTarget, n, k);
      var j := Pred(k, l.size);
      assert target == At(Chain(l)[j]);
    }
    if !(n.At? && n.index in Chain(l)) {
      NoPredecessor(l, isTarget, n);
    }
  }

  /**
   * The data of the visited nodes with `add` woven in at node `at`: before
   * its data when `before` is set, after it otherwise.
   */
  function Woven<T>(nodes: seq<LNode<T>>, ps: seq<nat>, at: Link, add: seq<T>, before: bool): seq<T>
    requires forall k :: 0 <= k < |ps| ==> ps[k] < |nodes|
  {
    if ps == [] then []
    else Woven(nodes, ps[..|ps| - 1], at, add, before) + Piece(nodes, ps[|ps| - 1], at, add, before)
  }

  /** What one visited node contributes: its data, with `add` before or after it when it is `at`. */
  function Piece<T>(nodes: seq<LNode<T>>, node: nat, at: Link, add: seq<T>, before: bool): seq<T>
    requires node < |nodes|
  {
    (if At(node) == at && before then add else [])
    + [nodes[node].data]
    + (if At(node) == at && !before then add else [])
  }

  lemma PieceShape<T>(nodes: seq<LNode<T>>, node: nat, at: Link, add: seq<T>, before: bool)
    requires node < |nodes|
    ensures Piece(nodes, node, at, add, before) ==
      if At(node) != at then [nodes[node].data]
      else if before then add + [nodes[node].data]
      else [nodes[node].data] + add
  {
  }

  lemma WovenNext<T>(nodes: seq<LNode<T>>, vs: seq<nat>, k: nat, at: Link, add: seq<T>, before: bool)
    requires k < |vs| && forall j :: 0 <= j < |vs| ==> vs[j] < |nodes|
    ensures Woven(nodes, vs[..k + 1], at, add, before) == Woven(nodes, vs[..k], at, add, before) + Piece(nodes, vs[k], at, add, before)
  {
    assert vs[..k + 1][..k] == vs[..k];
  }

  /** `add` inserted into `s` at position `k`. */
  function Spliced<T>(s: seq<T>, k: nat, add: seq<T>): (r: seq<T>)
    requires k <= |s|
    ensures |r| == |s| + |add|
    ensures r[..k] == s[..k] && r[k..k + |add|] == add && r[k + |add|..] == s[k..]
  {
    s[..k] + add + s[k..]
  }

  lemma DataSnoc<T>(nodes: seq<LNode<T>>, ps: seq<nat>)
    requires ps != [] && forall k :: 0 <= k < |ps| ==> ps[k] < |nodes|
    ensures DataAt(nodes, ps) == DataAt(nodes, ps[..|ps| - 1]) + [nodes[ps[|ps| - 1]].data]
  {
  }

  lemma SplicedSnoc<T>(s: seq<T>, i: nat, add: seq<T>, x: T)
    requires i <= |s|
    ensures Spliced(s, i, add) + [x] == Spliced(s + [x], i, add)
  {
    assert (s + [x])[..i] == s[..i] && (s + [x])[i..] == s[i..] + [x];
  }

  lemma SplicedLast<T>(s: seq<T>, add: seq<T>, x: T)
    ensures Spliced(s + [x], |s|, add) == s + (add + [x])
    ensures Spliced(s + [x], |s| + 1, add) == s + ([x] + add)
  {
    assert (s + [x])[..|s|] == s && (s + [x])[|s|..] == [x];
    assert (s + [x])[..|s| + 1] == s + [x] && (s + [x])[|s| + 1..] == [];
  }

  /** Weaving at a node that is not among the visited ones adds nothing. */
  lemma {:induction false} WovenAbsent<T>(nodes: seq<LNode<T>>, ps: seq<nat>, at: Link, add: seq<T>, before: bool)
    requires forall k :: 0 <= k < |ps| ==> ps[k] < |nodes|
    requires !(at.At? && at.index in ps)
    ensures Woven(nodes, ps, at, add, before) == DataAt(nodes, ps)
    decreases |ps|
  {
    if ps != [] {
      WovenAbsent(nodes, ps[..|ps| - 1], at, add, before);
      DataSnoc(nodes, ps);
    }
  }

  /** Weaving at the last visited node, which no earlier one repeats, places `add` next to the end. */
  lemma WovenLast<T>(nodes: seq<LNode<T>>, ps: seq<nat>, at: Link, add: seq<T>, before: bool)
    requires ps != [] && forall j :: 0 <= j < |ps| ==> ps[j] < |nodes|
    requires at == At(ps[|ps| - 1]) && at.index !in ps[..|ps| - 1]
    ensures Woven(nodes, ps, at, add, before) ==
      Spliced(DataAt(nodes, ps), if before then |ps| - 1 else |ps|, add)
  {
    var init := ps[..|ps| - 1];
    DataSnoc(nodes, ps);
    PieceShape(nodes, ps[|ps| - 1], at, add, before);
    WovenAbsent(nodes, init, at, add, before);
    SplicedLast(DataAt(nodes, init), add, nodes[ps[|ps| - 1]].data);
  }

  /** Weaving at a node other than the last visited one: the last node's data follows the woven rest. */
  lemma WovenSnoc<T>(nodes: seq<LNode<T>>, ps: seq<nat>, at: Link, add: seq<T>, before: bool, i: nat)
    requires ps != [] && forall j :: 0 <= j < |ps| ==> ps[j] < |nodes|
    requires at != At(ps[|ps| - 1]) && i < |ps|
    requires Woven(nodes, ps[..|ps| - 1], at, add, before) == Spliced(DataAt(nodes, ps[..|ps| - 1]), i, add)
    ensures Woven(nodes, ps, at, add, before) == Spliced(DataAt(nodes, ps), i, add)
  {
    var init := ps[..|ps| - 1];
    var x := nodes[ps[|ps| - 1]].data;
    DataSnoc(nodes, ps);
    PieceShape(nodes, ps[|ps| - 1], at, add, before);
    SplicedSnoc(DataAt(nodes, init), i, add, x);
  }

  /** Over a repetition-free chain, weaving inserts `add` once, next to the position of `at`. */
  lemma {:induction false} WovenAt<T>(nodes: seq<LNode<T>>, ps: seq<nat>, at: Link, add: seq<T>, before: bool, k: nat)
    requires Distinct(ps) && forall j :: 0 <= j < |ps| ==> ps[j] < |nodes|
    requires k < |ps| && at == At(ps[k])
    ensures Woven(nodes, ps, at, add, before) == Spliced(DataAt(nodes, ps), if before then k else k + 1, add)
    decreases |ps|
  {
    var n := |ps| - 1;
    if k == n {
      assert at.index !in ps[..n];
      WovenLast(nodes, ps, at, add, before);
    } else {
      assert Distinct(ps[..n]) && ps[n] != ps[k];
      WovenAt(nodes, ps[..n], at, add, before, k);
      WovenSnoc(nodes, ps, at, add, before, if before then k else k + 1);
    }
  }

  /**
   * The data of the list with the addition woven in: the addition's data is
   * mapped, then each node visited by `forEach` contributes its piece.
   */
  method Weave<T>(l: LList<T>, at: Link, additionList: LList<T>, before: bool) returns (newList: seq<T>)
    requires Valid(l) && Valid(additionList)
    ensures newList == Woven(l.nodes, Chain(l), at, Data(additionList), before)
  {
    var visited := ForEach(l);
    var added := MapData(additionList);
    newList := WeaveVisited(l.nodes, visited, at, added, before);
  }

  /** The `forEach` callback of `addBefore`, run over the visited nodes in order. */
  method WeaveVisited<T>(nodes: seq<LNode<T>>, visited: seq<nat>, at: Link, added: seq<T>, before: bool)
    returns (newList: seq<T>)
    requires forall j :: 0 <= j < |visited| ==> visited[j] < |nodes|
    ensures newList == Woven(nodes, visited, at, added, before)
  {
    newList := [];
    for k := 0 to |visited|
      invariant newList == Woven(nodes, visited[..k], at, added, before)
    {
      var node := visited[k];
      ghost var previous := newList;
      PieceShape(nodes, node, at, added, before);
      if At(node) == at && before {
        newList := newList + added;
      }
      newList := newList + [nodes[node].data];
      if At(node) == at && !before {
        newList := newList + added;
        assert newList == previous + ([nodes[node].data] + added);
      } else if At(node) == at {
        assert newList == previous + (added + [nodes[node].data]);
      }
      WovenNext(nodes, visited, k, at, added, before);
    }
    assert visited[..|visited|] == visited;
  }

  /**
   * `addBefore(at, addition, before)`: a circular list of this list's data
   * with the addition's items woven in at node `at`; an `at` that is not a
   * node gives the error value instead.
   */
  method AddBefore<T>(l: LList<T>, at: Link, addition: ItemOrList<T>, before: bool) returns (r: Result<LList<T>, Error>)
    requires Valid(l) && l.circular
    ensures !(at.At? && at.index < |l.nodes|) ==> r == Failure(NotANode)
    ensures forall k :: 0 <= k < l.size && at == At(Chain(l)[k]) ==>
      r.Success? && Valid(r.value) && r.value.circular
      && Data(r.value) == Spliced(Data(l), if before then k else k + 1, ConvertToSeq(addition))
    ensures at.At? && at.index < |l.nodes| && at.index !in Chain(l) ==>
      r.Success? && Valid(r.value) && r.value.circular && Data(r.value) == Data(l)
  {
    var additionList := NewLList(addition, false, None);
    if !(at.At? && at.index < |l.nodes|) {
      return Failure(NotANode);
    }
    var newList := Weave(l, at, additionList.value, before);
    r := FromData(newList);
    forall k | 0 <= k < l.size && at == At(Chain(l)[k])
      ensures newList == Spliced(Data(l), if before then k else k + 1, ConvertToSeq(addition))
    {
      WovenAt(l.nodes, Chain(l), at, ConvertToSeq(addition), before, k);
    }
    if at.index !in Chain(l) {
      WovenAbsent(l.nodes, Chain(l), at, ConvertToSeq(addition), before);
    }
  }

  /** `addAfter(at, addition)`: `addBefore` with the items placed after `at`. */
  method AddAfter<T>(l: LList<T>, at: Link, addition: ItemOrList<T>) returns (r: Result<LList<T>, Error>)
    requires Valid(l) && l.circular
    ensures !(at.At? && at.index < |l.nodes|) ==> r == Failure(NotANode)
    ensures forall k :: 0 <= k < l.size && at == At(Chain(l)[k]) ==>
      r.Success? && Valid(r.value) && r.value.circular
      && Data(r.value) == Spliced(Data(l), k + 1, ConvertToSeq(addition))
    ensures at.At? && at.index < |l.nodes| && at.index !in Chain(l) ==>
      r.Success? && Valid(r.value) && r.value.circular && Data(r.value) == Data(l)
  {
    r := AddBefore(l, at, addition, false);
  }
}
