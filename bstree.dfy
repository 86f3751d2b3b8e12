/**
 * The persistent binary search tree.
 *
 * A tree value holds a root node (or `Null`) and the number of its nodes.
 * Every update copies only the nodes on the root-to-target path: the search
 * records an ancestor stack of (side, parent) frames, and the stack is then
 * consumed from its top (the parent of the target) back to the root, each
 * ancestor being re-created with one child slot replaced. Keys are integers
 * ordered by the default comparator; values are of any type.
 */
module BSTree {
  import opened Wrappers
  import opened BSTNode

  /** A tree object: its root and its node count (`_root`, `_count`). */
  datatype BST<V> = BST(root: Tree<V>, count: nat)

  /** One ancestor-stack entry: the side taken below `parent`. */
  datatype Frame<V> = Frame(side: Side, parent: Tree<V>)

  /** What a node contributes to an in-order traversal. */
  datatype Entry<V> = Entry(key: int, value: V, id: nat)

  function EntryOf<V>(n: Tree<V>): Entry<V>
    requires n.Node?
  {
    Entry(n.key, n.value, n.id)
  }

  // ---------------------------------------------------------------------
  // In-order contents and the search-tree invariant

  /** The nodes `traverseInOrder` visits, in visiting order. */
  function InOrder<V>(t: Tree<V>): seq<Entry<V>>
  {
    match t
    case Null => []
    case Node(k, v, l, r, id) => InOrder(l) + [Entry(k, v, id)] + InOrder(r)
  }

  ghost predicate Sorted<V>(es: seq<Entry<V>>)
  {
    forall i, j :: 0 <= i < j < |es| ==> es[i].key < es[j].key
  }

  ghost predicate AllBelow<V>(es: seq<Entry<V>>, k: int)
  {
    forall i :: 0 <= i < |es| ==> es[i].key < k
  }

  ghost predicate AllAbove<V>(es: seq<Entry<V>>, k: int)
  {
    forall i :: 0 <= i < |es| ==> es[i].key > k
  }

  ghost function KeySet<V>(es: seq<Entry<V>>): set<int>
  {
    set i | 0 <= i < |es| :: es[i].key
  }

  /** Search-tree order: the in-order keys are strictly increasing. */
  ghost predicate Ordered<V>(t: Tree<V>)
  {
    Sorted(InOrder(t))
  }

  /** The tree invariant: ordered, and `_count` is the number of nodes. */
  ghost predicate Valid<V>(t: BST<V>)
  {
    Ordered(t.root) && t.count == |InOrder(t.root)|
  }

  lemma OrderedNode<V>(t: Tree<V>)
    requires t.Node? && Ordered(t)
    ensures Ordered(t.left) && Ordered(t.right)
    ensures AllBelow(InOrder(t.left), t.key) && AllAbove(InOrder(t.right), t.key)
  {
    var l, r := InOrder(t.left), InOrder(t.right);
    var es := InOrder(t);
    assert es == l + [EntryOf(t)] + r;
    forall i | 0 <= i < |l| ensures l[i].key < t.key { assert es[i] == l[i] && es[|l|] == EntryOf(t); }
    forall i | 0 <= i < |r| ensures r[i].key > t.key { assert es[|l| + 1 + i] == r[i] && es[|l|] == EntryOf(t); }
    forall i, j | 0 <= i < j < |l| ensures l[i].key < l[j].key { assert es[i] == l[i] && es[j] == l[j]; }
    forall i, j | 0 <= i < j < |r| ensures r[i].key < r[j].key {
      assert es[|l| + 1 + i] == r[i] && es[|l| + 1 + j] == r[j];
    }
  }

  lemma SortedJoin<V>(a: seq<Entry<V>>, b: seq<Entry<V>>, k: int)
    requires Sorted(a) && Sorted(b) && AllBelow(a, k) && (forall i :: 0 <= i < |b| ==> b[i].key >= k)
    ensures Sorted(a + b)
  {
  }

  // ---------------------------------------------------------------------
  // Ancestor stacks: paths and path copying

  ghost predicate Framed<V>(anc: seq<Frame<V>>)
  {
    forall i :: 0 <= i < |anc| ==> anc[i].parent.Node?
  }

  /**
   * `anc` is exactly the root-to-parent path of `x` in `t`: its first frame
   * holds the root, each next frame holds the child on the recorded side, and
   * the last side leads to `x`.
   */
  ghost predicate IsPath<V>(t: Tree<V>, anc: seq<Frame<V>>, x: Tree<V>)
    decreases |anc|
  {
    if anc == [] then x == t
    else t.Node? && anc[0].parent == t && IsPath(Child(t, anc[0].side), anc[1..], x)
  }

  /**
   * The root obtained by hanging `x` below the ancestor stack: every ancestor
   * is re-created with its recorded slot pointing at the rebuilt node below.
   */
  function Rebuild<V>(x: Tree<V>, anc: seq<Frame<V>>): Tree<V>
    requires Framed(anc)
    decreases |anc|
  {
    if anc == [] then x else WithChild(anc[0].parent, anc[0].side, Rebuild(x, anc[1..]))
  }

  /** The subtree reached from `t` by following the sides recorded in `anc`. */
  function Descend<V>(t: Tree<V>, anc: seq<Frame<V>>): Tree<V>
    decreases |anc|
  {
    if anc == [] || t.Null? then t else Descend(Child(t, anc[0].side), anc[1..])
  }

  /** What the frame's parent contributes in order before the slot it records. */
  function FrameBefore<V>(f: Frame<V>): seq<Entry<V>>
    requires f.parent.Node?
  {
    if f.side == Right then InOrder(f.parent.left) + [EntryOf(f.parent)] else []
  }

  /** What the frame's parent contributes in order after the slot it records. */
  function FrameAfter<V>(f: Frame<V>): seq<Entry<V>>
    requires f.parent.Node?
  {
    if f.side == Left then [EntryOf(f.parent)] + InOrder(f.parent.right) else []
  }

  /** The in-order entries that precede the hole at the end of the path. */
  function Before<V>(anc: seq<Frame<V>>): seq<Entry<V>>
    requires Framed(anc)
    decreases |anc|
  {
    if anc == [] then [] else FrameBefore(anc[0]) + Before(anc[1..])
  }

  /** The in-order entries that follow the hole at the end of the path. */
  function After<V>(anc: seq<Frame<V>>): seq<Entry<V>>
    requires Framed(anc)
    decreases |anc|
  {
    if anc == [] then [] else After(anc[1..]) + FrameAfter(anc[0])
  }

  /**
   * Two trees agree off the path `anc`: each node on the path keeps its key,
   * value, id and the child it does not lead through.
   */
  ghost predicate SameOffPath<V>(t: Tree<V>, u: Tree<V>, anc: seq<Frame<V>>)
    decreases |anc|
  {
    anc == [] ||
    (t.Node? && u.Node? && EntryOf(u) == EntryOf(t)
     && Child(u, Other(anc[0].side)) == Child(t, Other(anc[0].side))
     && SameOffPath(Child(t, anc[0].side), Child(u, anc[0].side), anc[1..]))
  }

  lemma {:induction false} RebuildAppend<V>(x: Tree<V>, a: seq<Frame<V>>, b: seq<Frame<V>>)
    requires Framed(a) && Framed(b)
    ensures Framed(a + b)
    ensures Rebuild(x, a + b) == Rebuild(Rebuild(x, b), a)
    decreases |a|
  {
    if a != [] {
      assert (a + b)[1..] == a[1..] + b;
      RebuildAppend(x, a[1..], b);
    } else {
      assert a + b == b;
    }
  }

  /** Plugging the found subtree back into its path gives the original tree. */
  lemma {:induction false} PathRebuild<V>(t: Tree<V>, anc: seq<Frame<V>>, y: Tree<V>)
    requires IsPath(t, anc, y)
    ensures Framed(anc) && Rebuild(y, anc) == t
    decreases |anc|
  {
    if anc != [] {
      PathRebuild(Child(t, anc[0].side), anc[1..], y);
    }
  }

  /**
   * Path copying: replacing the subtree at the end of the path by `x` keeps
   * every subtree off the path, and `x` sits where the old subtree was.
   */
  lemma {:induction false} PathCopy<V>(t: Tree<V>, anc: seq<Frame<V>>, y: Tree<V>, x: Tree<V>)
    requires IsPath(t, anc, y)
    ensures Framed(anc)
    ensures SameOffPath(t, Rebuild(x, anc), anc)
    ensures Descend(Rebuild(x, anc), anc) == x
    decreases |anc|
  {
    PathRebuild(t, anc, y);
    if anc != [] {
      PathCopy(Child(t, anc[0].side), anc[1..], y, x);
    }
  }

  lemma InOrderWithChild<V>(f: Frame<V>, below: Tree<V>)
    requires f.parent.Node?
    ensures InOrder(WithChild(f.parent, f.side, below)) == FrameBefore(f) + InOrder(below) + FrameAfter(f)
  {
  }

  lemma BeforeAfterUnfold<V>(anc: seq<Frame<V>>)
    requires Framed(anc) && anc != []
    ensures Framed(anc[1..])
    ensures Before(anc) == FrameBefore(anc[0]) + Before(anc[1..])
    ensures After(anc) == After(anc[1..]) + FrameAfter(anc[0])
  {
  }

  lemma Regroup<E>(a: seq<E>, b: seq<E>, c: seq<E>, d: seq<E>, e: seq<E>)
    ensures a + (b + c + d) + e == (a + b) + c + (d + e)
  {
  }

  lemma {:induction false} InOrderRebuild<V>(x: Tree<V>, anc: seq<Frame<V>>)
    requires Framed(anc)
    ensures InOrder(Rebuild(x, anc)) == Before(anc) + InOrder(x) + After(anc)
    decreases |anc|
  {
    if anc != [] {
      BeforeAfterUnfold(anc);
      var rest := anc[1..];
      InOrderRebuild(x, rest);
      InOrderWithChild(anc[0], Rebuild(x, rest));
      Regroup(FrameBefore(anc[0]), Before(rest), InOrder(x), After(rest), FrameAfter(anc[0]));
    }
  }

  lemma {:induction false} BeforeAfterAppend<V>(a: seq<Frame<V>>, b: seq<Frame<V>>)
    requires Framed(a) && Framed(b)
    ensures Framed(a + b)
    ensures Before(a + b) == Before(a) + Before(b)
    ensures After(a + b) == After(b) + After(a)
    decreases |a|
  {
    if a != [] {
      var rest := a[1..];
      assert Framed(a + b) by {
        forall i | 0 <= i < |a + b| ensures (a + b)[i].parent.Node? {
          if i < |a| { assert (a + b)[i] == a[i]; } else { assert (a + b)[i] == b[i - |a|]; }
        }
      }
      assert (a + b)[0] == a[0] && (a + b)[1..] == rest + b;
      BeforeAfterUnfold(a + b);
      BeforeAfterUnfold(a);
      BeforeAfterAppend(rest, b);
      Assoc(FrameBefore(a[0]), Before(rest), Before(b));
      Assoc(After(b), After(rest), FrameAfter(a[0]));
    } else {
      assert a + b == b;
    }
  }

  lemma Assoc<E>(x: seq<E>, y: seq<E>, z: seq<E>)
    ensures x + (y + z) == (x + y) + z
  {
  }

  /** Every frame's side is the direction the comparator sends `key`. */
  ghost predicate Toward<V>(anc: seq<Frame<V>>, key: int)
  {
    forall i :: 0 <= i < |anc| ==>
      && anc[i].parent.Node?
      && anc[i].parent.key != key
      && (anc[i].side == Right <==> anc[i].parent.key < key)
  }

  /** Along a search path for `key`, everything before the hole is smaller and everything after is larger. */
  lemma {:induction false} SearchBounds<V>(t: Tree<V>, anc: seq<Frame<V>>, y: Tree<V>, key: int)
    requires Ordered(t) && IsPath(t, anc, y) && Toward(anc, key)
    ensures Framed(anc) && Ordered(y)
    ensures AllBelow(Before(anc), key) && AllAbove(After(anc), key)
    decreases |anc|
  {
    if anc != [] {
      OrderedNode(t);
      assert Toward(anc[1..], key) by {
        forall i | 0 <= i < |anc[1..]| ensures anc[1..][i] == anc[i + 1] { }
      }
      SearchBounds(Child(t, anc[0].side), anc[1..], y, key);
      FrameBounds(anc[0], key);
      BoundsJoin(FrameBefore(anc[0]), Before(anc[1..]), After(anc[1..]), FrameAfter(anc[0]), key);
    }
  }

  /** The part of a frame's parent on either side of the slot a search for `key` descends into. */
  lemma FrameBounds<V>(f: Frame<V>, key: int)
    requires f.parent.Node? && Ordered(f.parent) && f.parent.key != key
    requires f.side == Right <==> f.parent.key < key
    ensures AllBelow(FrameBefore(f), key) && AllAbove(FrameAfter(f), key)
  {
    OrderedNode(f.parent);
  }

  lemma BoundsJoin<V>(b1: seq<Entry<V>>, b2: seq<Entry<V>>, a1: seq<Entry<V>>, a2: seq<Entry<V>>, key: int)
    requires AllBelow(b1, key) && AllBelow(b2, key) && AllAbove(a1, key) && AllAbove(a2, key)
    ensures AllBelow(b1 + b2, key) && AllAbove(a1 + a2, key)
  {
  }

  lemma {:induction false} PathExtend<V>(t: Tree<V>, anc: seq<Frame<V>>, x: Tree<V>, side: Side)
    requires IsPath(t, anc, x) && x.Node?
    ensures IsPath(t, anc + [Frame(side, x)], Child(x, side))
    decreases |anc|
  {
    if anc != [] {
      assert (anc + [Frame(side, x)])[1..] == anc[1..] + [Frame(side, x)];
      PathExtend(Child(t, anc[0].side), anc[1..], x, side);
    }
  }

  /** Hanging `c` below the last frame and rebuilding the rest is rebuilding from `c`. */
  lemma PopRebuild<V>(c: Tree<V>, anc: seq<Frame<V>>)
    requires Framed(anc) && anc != []
    ensures Framed(anc[..|anc| - 1])
    ensures Rebuild(WithChild(anc[|anc| - 1].parent, anc[|anc| - 1].side, c), anc[..|anc| - 1]) == Rebuild(c, anc)
  {
    var init, last := anc[..|anc| - 1], anc[|anc| - 1];
    assert Rebuild(c, [last]) == WithChild(last.parent, last.side, c);
    RebuildAppend(c, init, [last]);
    assert init + [last] == anc;
  }

  /** A path that only ever turns right contributes nothing after its hole. */
  lemma {:induction false} AfterAllRight<V>(anc: seq<Frame<V>>)
    requires Framed(anc) && forall i :: 0 <= i < |anc| ==> anc[i].side == Right
    ensures After(anc) == []
    decreases |anc|
  {
    if anc != [] {
      AfterAllRight(anc[1..]);
    }
  }

  // ---------------------------------------------------------------------
  // Reference behaviour on in-order entry sequences

  ghost predicate Without<V>(es: seq<Entry<V>>, k: int)
  {
    forall i :: 0 <= i < |es| ==> es[i].key != k
  }

  /** The value stored under `k`, if any. */
  function Lookup<V>(es: seq<Entry<V>>, k: int): Option<V>
  {
    if es == [] then None
    else if es[0].key == k then Some(es[0].value)
    else Lookup(es[1..], k)
  }

  /**
   * Insert-or-overwrite on a key-ordered entry list: an entry with key `k`
   * gets the value `v` and keeps its id; otherwise a new entry with id `id`
   * goes in front of the first larger key.
   */
  function Upsert<V>(es: seq<Entry<V>>, k: int, v: V, id: nat): seq<Entry<V>>
  {
    if es == [] then [Entry(k, v, id)]
    else if es[0].key == k then [Entry(k, v, es[0].id)] + es[1..]
    else if es[0].key > k then [Entry(k, v, id)] + es
    else [es[0]] + Upsert(es[1..], k, v, id)
  }

  /** The entry list with every entry of key `k` dropped. */
  function DeleteKey<V>(es: seq<Entry<V>>, k: int): seq<Entry<V>>
  {
    if es == [] then []
    else (if es[0].key == k then [] else [es[0]]) + DeleteKey(es[1..], k)
  }

  lemma {:induction false} LookupSome<V>(es: seq<Entry<V>>, k: int)
    ensures Lookup(es, k).Some? <==> k in KeySet(es)
    decreases |es|
  {
    if es != [] {
      LookupSome(es[1..], k);
      assert KeySet(es) == {es[0].key} + KeySet(es[1..]) by {
        forall x | x in KeySet(es) ensures x in {es[0].key} + KeySet(es[1..]) {
          var i :| 0 <= i < |es| && es[i].key == x;
          if i > 0 { assert es[1..][i - 1] == es[i]; }
        }
        forall x | x in KeySet(es[1..]) ensures x in KeySet(es) {
          var i :| 0 <= i < |es[1..]| && es[1..][i].key == x;
          assert es[i + 1] == es[1..][i];
        }
      }
    }
  }

  /** After an upsert, `k` maps to `v` and every other key keeps its value. */
  lemma {:induction false} LookupUpsert<V>(es: seq<Entry<V>>, k: int, v: V, id: nat, k': int)
    ensures Lookup(Upsert(es, k, v, id), k') == if k' == k then Some(v) else Lookup(es, k')
    decreases |es|
  {
    if es != [] && es[0].key < k {
      LookupUpsert(es[1..], k, v, id, k');
      assert ([es[0]] + Upsert(es[1..], k, v, id))[1..] == Upsert(es[1..], k, v, id);
    } else if es != [] && es[0].key == k {
      assert ([Entry(k, v, es[0].id)] + es[1..])[1..] == es[1..];
    } else if es != [] {
      assert ([Entry(k, v, id)] + es)[1..] == es;
    }
  }

  lemma SortedCons<V>(e: Entry<V>, u: seq<Entry<V>>)
    requires Sorted(u) && forall x :: x in u ==> x.key > e.key
    ensures Sorted([e] + u)
  {
    var w := [e] + u;
    forall i, j | 0 <= i < j < |w| ensures w[i].key < w[j].key {
      assert w[j] == u[j - 1];
      assert u[j - 1] in u;
      if i > 0 {
        assert w[i] == u[i - 1];
      }
    }
  }

  lemma SortedTail<V>(es: seq<Entry<V>>)
    requires Sorted(es) && es != []
    ensures Sorted(es[1..]) && forall x :: x in es[1..] ==> x.key > es[0].key
  {
    forall x | x in es[1..] ensures x.key > es[0].key {
      var j :| 0 <= j < |es[1..]| && es[1..][j] == x;
      assert es[j + 1] == x;
    }
    forall i, j | 0 <= i < j < |es[1..]| ensures es[1..][i].key < es[1..][j].key {
      assert es[1..][i] == es[i + 1] && es[1..][j] == es[j + 1];
    }
  }

  /** An upsert keeps a key-ordered list key-ordered and adds only entries of key `k`. */
  lemma {:induction false} UpsertSorted<V>(es: seq<Entry<V>>, k: int, v: V, id: nat)
    requires Sorted(es)
    ensures Sorted(Upsert(es, k, v, id))
    ensures forall x :: x in Upsert(es, k, v, id) ==> x in es || x.key == k
    decreases |es|
  {
    if es != [] {
      SortedTail(es);
      if es[0].key < k {
        UpsertSorted(es[1..], k, v, id);
        SortedCons(es[0], Upsert(es[1..], k, v, id));
      } else if es[0].key > k {
        SortedCons(Entry(k, v, id), es);
      } else {
        SortedCons(Entry(k, v, es[0].id), es[1..]);
      }
    }
  }

  /** After deleting `k`, `k` maps to nothing and every other key keeps its value. */
  lemma {:induction false} LookupDeleteKey<V>(es: seq<Entry<V>>, k: int, k': int)
    ensures Lookup(DeleteKey(es, k), k') == if k' == k then None else Lookup(es, k')
    decreases |es|
  {
    if es != [] {
      LookupDeleteKey(es[1..], k, k');
      if es[0].key != k {
        assert ([es[0]] + DeleteKey(es[1..], k))[1..] == DeleteKey(es[1..], k);
      } else {
        assert [] + DeleteKey(es[1..], k) == DeleteKey(es[1..], k);
      }
    }
  }

  /** Deleting keeps a key-ordered list key-ordered and only drops entries. */
  lemma {:induction false} DeleteKeySorted<V>(es: seq<Entry<V>>, k: int)
    requires Sorted(es)
    ensures Sorted(DeleteKey(es, k))
    ensures forall x :: x in DeleteKey(es, k) ==> x in es && x.key != k
    decreases |es|
  {
    if es != [] {
      var d := DeleteKey(es[1..], k);
      SortedTail(es);
      DeleteKeySorted(es[1..], k);
      if es[0].key != k {
        SortedCons(es[0], d);
      } else {
        assert [] + d == d;
      }
    }
  }

  lemma {:induction false} UpsertPrefix<V>(a: seq<Entry<V>>, b: seq<Entry<V>>, k: int, v: V, id: nat)
    requires AllBelow(a, k)
    ensures Upsert(a + b, k, v, id) == a + Upsert(b, k, v, id)
    decreases |a|
  {
    if a != [] {
      assert (a + b)[0] == a[0] && (a + b)[1..] == a[1..] + b;
      UpsertPrefix(a[1..], b, k, v, id);
      assert a == [a[0]] + a[1..];
    } else {
      assert a + b == b;
    }
  }

  lemma {:induction false} DeleteKeyAppend<V>(a: seq<Entry<V>>, b: seq<Entry<V>>, k: int)
    ensures DeleteKey(a + b, k) == DeleteKey(a, k) + DeleteKey(b, k)
    decreases |a|
  {
    if a != [] {
      assert (a + b)[0] == a[0] && (a + b)[1..] == a[1..] + b;
      DeleteKeyAppend(a[1..], b, k);
    } else {
      assert a + b == b;
    }
  }

  lemma {:induction false} DeleteKeyWithout<V>(a: seq<Entry<V>>, k: int)
    requires Without(a, k)
    ensures DeleteKey(a, k) == a
    decreases |a|
  {
    if a != [] {
      DeleteKeyWithout(a[1..], k);
      assert a == [a[0]] + a[1..];
    }
  }

  /** Deleting a key that was just inserted into entries without it gives the entries back. */
  lemma {:induction false} DeleteUpsert<V>(es: seq<Entry<V>>, k: int, v: V, id: nat)
    requires Without(es, k)
    ensures |Upsert(es, k, v, id)| == |es| + 1
    ensures DeleteKey(Upsert(es, k, v, id), k) == es
    decreases |es|
  {
    if es == [] {
      assert DeleteKey([Entry(k, v, id)], k) == [] + DeleteKey([Entry(k, v, id)][1..], k);
    } else if es[0].key > k {
      var u := [Entry(k, v, id)] + es;
      assert u[1..] == es;
      DeleteKeyWithout(es, k);
    } else {
      var u := [es[0]] + Upsert(es[1..], k, v, id);
      assert u[1..] == Upsert(es[1..], k, v, id);
      DeleteUpsert(es[1..], k, v, id);
      assert es == [es[0]] + es[1..];
    }
  }

  lemma {:induction false} LookupPrefix<V>(a: seq<Entry<V>>, b: seq<Entry<V>>, k: int)
    requires Without(a, k)
    ensures Lookup(a + b, k) == Lookup(b, k)
    decreases |a|
  {
    if a != [] {
      assert (a + b)[0] == a[0] && (a + b)[1..] == a[1..] + b;
      LookupPrefix(a[1..], b, k);
    } else {
      assert a + b == b;
    }
  }

  // ---------------------------------------------------------------------
  // Search

  /** `defaultComp`: -1, 1 or 0 as `a` is smaller than, larger than or equal to `b`. */
  function DefaultComp(a: int, b: int): (c: int)
    ensures c == -1 <==> a < b
    ensures c == 1 <==> a > b
    ensures c == 0 <==> a == b
  {
    if a < b then -1 else if a > b then 1 else 0
  }

  /**
   * `recursiveSearch`: descends from `node` by the comparator, pushing one
   * frame per step onto `stack`; returns the node holding `key` (or `Null`)
   * together with the grown stack.
   */
  function RecursiveSearch<V>(node: Tree<V>, key: int, stack: seq<Frame<V>>): (r: (Tree<V>, seq<Frame<V>>))
    ensures |stack| <= |r.1| && r.1[..|stack|] == stack
    ensures IsPath(node, r.1[|stack|..], r.0) && Toward(r.1[|stack|..], key)
    ensures r.0.Null? || r.0.key == key
    decreases node
  {
    if node.Null? then (Null, stack)
    else
      var c := DefaultComp(node.key, key);
      if c == -1 then
        var r := RecursiveSearch(node.right, key, stack + [Frame(Right, node)]);
        assert r.1[|stack|..] == [Frame(Right, node)] + r.1[|stack| + 1..];
        r
      else if c == 1 then
        var r := RecursiveSearch(node.left, key, stack + [Frame(Left, node)]);
        assert r.1[|stack|..] == [Frame(Left, node)] + r.1[|stack| + 1..];
        r
      else (node, stack)
  }

  function Search<V>(root: Tree<V>, key: int): (r: (Tree<V>, seq<Frame<V>>))
    ensures IsPath(root, r.1, r.0) && Toward(r.1, key)
    ensures r.0.Null? || r.0.key == key
  {
    var r := RecursiveSearch(root, key, []);
    assert r.1[0..] == r.1;
    r
  }

  /**
   * In an ordered tree the search splits the in-order entries around the
   * hole it stops at: smaller keys before, larger keys after.
   */
  lemma SearchSplit<V>(t: Tree<V>, key: int)
    requires Ordered(t)
    ensures Framed(Search(t, key).1) && Ordered(Search(t, key).0)
    ensures InOrder(t) == Before(Search(t, key).1) + InOrder(Search(t, key).0) + After(Search(t, key).1)
    ensures AllBelow(Before(Search(t, key).1), key) && AllAbove(After(Search(t, key).1), key)
  {
    var (y, anc) := Search(t, key);
    SearchBounds(t, anc, y, key);
    PathRebuild(t, anc, y);
    InOrderRebuild(y, anc);
  }

  lemma LookupMiss<V>(b: seq<Entry<V>>, a: seq<Entry<V>>, key: int)
    requires AllBelow(b, key) && AllAbove(a, key)
    ensures Lookup(b + a, key) == None
  {
    LookupPrefix(b, a, key);
    LookupPrefix(a, [], key);
    assert a + [] == a;
  }

  lemma LookupHit<V>(b: seq<Entry<V>>, l: seq<Entry<V>>, e: Entry<V>, r: seq<Entry<V>>, a: seq<Entry<V>>)
    requires AllBelow(b, e.key) && AllBelow(l, e.key)
    ensures Lookup(b + (l + [e] + r) + a, e.key) == Some(e.value)
  {
    assert b + (l + [e] + r) + a == (b + l) + ([e] + r + a);
    LookupPrefix(b + l, [e] + r + a, e.key);
  }

  /** In an ordered tree the search finds exactly the entry a lookup returns. */
  lemma LookupSearch<V>(t: Tree<V>, key: int)
    ensures Ordered(t) ==> Lookup(InOrder(t), key) == (if Search(t, key).0.Null? then None else Some(Search(t, key).0.value))
  {
    if Ordered(t) {
      var (y, anc) := Search(t, key);
      SearchSplit(t, key);
      if y.Null? {
        assert InOrder(t) == Before(anc) + After(anc);
        LookupMiss(Before(anc), After(anc), key);
      } else {
        OrderedNode(y);
        LookupHit(Before(anc), InOrder(y.left), EntryOf(y), InOrder(y.right), After(anc));
      }
    }
  }

  /** `find`: the node holding `key`, or `Null`. */
  function Find<V>(t: BST<V>, key: int): (r: Tree<V>)
    ensures r.Null? || r.key == key
    ensures Ordered(t.root) ==> (r.Node? <==> key in KeySet(InOrder(t.root)))
  {
    LookupSearch(t.root, key);
    LookupSome(InOrder(t.root), key);
    Search(t.root, key).0
  }

  /** `get`: the value stored under `key`, or `None` for `null`. */
  function Get<V>(t: BST<V>, key: int): (r: Option<V>)
    ensures Ordered(t.root) ==> r == Lookup(InOrder(t.root), key)
  {
    LookupSearch(t.root, key);
    var y := Search(t.root, key).0;
    if y.Null? then None else Some(y.value)
  }

  // ---------------------------------------------------------------------
  // Whole-tree queries

  /** `recount`: the number of nodes an in-order traversal visits. */
  function Recount<V>(root: Tree<V>): (n: nat)
    ensures n == |InOrder(root)|
  {
    match root
    case Null => 0
    case Node(_, _, l, r, _) => Recount(l) + 1 + Recount(r)
  }

  /** `new BSTree(comparator, root)`: the root (a shallow copy is the same value) and its recount. */
  function MakeTree<V>(root: Tree<V>): (t: BST<V>)
    ensures t.root == root && t.count == |InOrder(root)|
  {
    BST(root, Recount(root))
  }

  /** `clone`: a tree over the same root. */
  function Clone<V>(t: BST<V>): (r: BST<V>)
    ensures r.root == t.root && r.count == |InOrder(t.root)|
    ensures Valid(t) ==> r == t
  {
    MakeTree(t.root)
  }

  function KeysOf<V>(root: Tree<V>): (ks: seq<int>)
    ensures |ks| == |InOrder(root)|
    ensures forall i :: 0 <= i < |ks| ==> ks[i] == InOrder(root)[i].key
  {
    match root
    case Null => []
    case Node(k, _, l, r, _) =>
      var kl, kr := KeysOf(l), KeysOf(r);
      assert forall i :: 0 <= i < |kr| ==> InOrder(root)[|kl| + 1 + i] == InOrder(r)[i];
      assert forall i :: 0 <= i < |kl| ==> InOrder(root)[i] == InOrder(l)[i];
      kl + [k] + kr
  }

  function ValuesOf<V>(root: Tree<V>): (vs: seq<V>)
    ensures |vs| == |InOrder(root)|
    ensures forall i :: 0 <= i < |vs| ==> vs[i] == InOrder(root)[i].value
  {
    match root
    case Null => []
    case Node(_, v, l, r, _) =>
      var vl, vr := ValuesOf(l), ValuesOf(r);
      assert forall i :: 0 <= i < |vr| ==> InOrder(root)[|vl| + 1 + i] == InOrder(r)[i];
      assert forall i :: 0 <= i < |vl| ==> InOrder(root)[i] == InOrder(l)[i];
      vl + [v] + vr
  }

  /** `keys`: the keys in traversal order, strictly increasing in an ordered tree. */
  function Keys<V>(t: BST<V>): (ks: seq<int>)
    ensures |ks| == |InOrder(t.root)|
    ensures forall i :: 0 <= i < |ks| ==> ks[i] == InOrder(t.root)[i].key
    ensures Ordered(t.root) ==> forall i, j :: 0 <= i < j < |ks| ==> ks[i] < ks[j]
  {
    KeysOf(t.root)
  }

  /** `values`: the values in key order. */
  function Values<V>(t: BST<V>): (vs: seq<V>)
    ensures |vs| == |InOrder(t.root)|
    ensures forall i :: 0 <= i < |vs| ==> vs[i] == InOrder(t.root)[i].value
  {
    ValuesOf(t.root)
  }

  /** `contains`: whether some node holds the value `v`. */
  function Contains<V(==)>(t: BST<V>, v: V): (r: bool)
    ensures r <==> exists e :: e in InOrder(t.root) && e.value == v
  {
    ValuesContain(t, v);
    v in Values(t)
  }

  lemma ValuesContain<V>(t: BST<V>, v: V)
    ensures v in Values(t) <==> exists e :: e in InOrder(t.root) && e.value == v
  {
    var vs, es := Values(t), InOrder(t.root);
    if v in vs {
      var i :| 0 <= i < |vs| && vs[i] == v;
      assert es[i] in es && es[i].value == v;
    }
    if exists e :: e in es && e.value == v {
      var e :| e in es && e.value == v;
      var i :| 0 <= i < |es| && es[i] == e;
      assert vs[i] == v;
    }
  }

  // ---------------------------------------------------------------------
  // Loops over the spine

  /** `constructFromLeaf`: pops the stack from its top, re-creating each ancestor around the node built so far. */
  method ConstructFromLeaf<V>(node: Tree<V>, ancestors: seq<Frame<V>>) returns (root: Tree<V>)
    requires Framed(ancestors)
    ensures root == Rebuild(node, ancestors)
  {
    root := node;
    var stack := ancestors;
    while |stack| > 0
      invariant Framed(stack)
      invariant Rebuild(root, stack) == Rebuild(node, ancestors)
    {
      var f := stack[|stack| - 1];
      PopRebuild(root, stack);
      stack := stack[..|stack| - 1];
      root := WithChild(f.parent, f.side, root);
    }
  }

  /**
   * `findInOrderPredecessor`: walks right from `leftChild`, recording each
   * step; the node reached holds the last in-order entry of `leftChild`.
   */
  method FindInOrderPredecessor<V>(leftChild: Tree<V>) returns (ancestors: seq<Frame<V>>, iop: Tree<V>)
    requires leftChild.Node?
    ensures IsPath(leftChild, ancestors, iop) && iop.Node? && iop.right.Null?
    ensures forall i :: 0 <= i < |ancestors| ==> ancestors[i].side == Right
    ensures Framed(ancestors) && After(ancestors) == []
    ensures InOrder(leftChild) == Before(ancestors) + InOrder(iop.left) + [EntryOf(iop)]
  {
    iop := leftChild;
    ancestors := [];
    while iop.right.Node?
      invariant iop.Node? && IsPath(leftChild, ancestors, iop)
      invariant forall i :: 0 <= i < |ancestors| ==> ancestors[i].side == Right
      decreases iop
    {
      PathExtend(leftChild, ancestors, iop, Right);
      ancestors := ancestors + [Frame(Right, iop)];
      iop := iop.right;
    }
    PathRebuild(leftChild, ancestors, iop);
    AfterAllRight(ancestors);
    InOrderRebuild(iop, ancestors);
    assert InOrder(iop) == InOrder(iop.left) + [EntryOf(iop)];
  }

  /**
   * `traverseSide`: follows one side from the root to its end; the node
   * reached holds the first (left) or last (right) in-order entry.
   */
  method TraverseSide<V>(side: Side, t: BST<V>) returns (r: Tree<V>)
    ensures r.Null? <==> t.root.Null?
    ensures r.Node? ==> Child(r, side).Null?
    ensures r.Node? && side == Left ==> EntryOf(r) == InOrder(t.root)[0]
    ensures r.Node? && side == Right ==> EntryOf(r) == InOrder(t.root)[|InOrder(t.root)| - 1]
  {
    r := t.root;
    if r.Null? {
      return;
    }
    ghost var pre: seq<Entry<V>>, post: seq<Entry<V>> := [], [];
    var next := Child(r, side);
    while next.Node?
      invariant r.Node? && next == Child(r, side)
      invariant InOrder(t.root) == pre + InOrder(r) + post
      invariant side == Left ==> pre == []
      invariant side == Right ==> post == []
      decreases next
    {
      if side == Left {
        SpineStep(InOrder(t.root), pre, InOrder(r), post, InOrder(next), [EntryOf(r)] + InOrder(r.right));
        post := ([EntryOf(r)] + InOrder(r.right)) + post;
      } else {
        SpineStep(InOrder(t.root), pre, InOrder(r), post, InOrder(r.left) + [EntryOf(r)], InOrder(next));
        pre := pre + (InOrder(r.left) + [EntryOf(r)]);
      }
      r := next;
      next := Child(r, side);
    }
    if side == Left {
      SpineEnd(InOrder(t.root), pre, InOrder(r), post, [], [EntryOf(r)], InOrder(r.right));
    } else {
      SpineEnd(InOrder(t.root), pre, InOrder(r), post, InOrder(r.left), [EntryOf(r)], []);
    }
  }

  /** Splitting the middle part of a three-part sequence. */
  lemma SpineStep<E>(whole: seq<E>, pre: seq<E>, mid: seq<E>, post: seq<E>, a: seq<E>, b: seq<E>)
    requires whole == pre + mid + post && mid == a + b
    ensures whole == pre + a + (b + post) && whole == (pre + a) + b + post
  {
  }

  /** The entry at the end of the spine is first when nothing precedes it, last when nothing follows it. */
  lemma SpineEnd<E>(whole: seq<E>, pre: seq<E>, mid: seq<E>, post: seq<E>, a: seq<E>, e: seq<E>, b: seq<E>)
    requires whole == pre + mid + post && mid == a + e + b && |e| == 1
    ensures pre == [] && a == [] ==> whole[0] == e[0]
    ensures post == [] && b == [] ==> whole[|whole| - 1] == e[0]
  {
  }

  /** `min`: the node with the smallest key, `Null` for an empty tree. */
  method Min<V>(t: BST<V>) returns (r: Tree<V>)
    ensures r.Null? <==> t.root.Null?
    ensures r.Node? ==> EntryOf(r) in InOrder(t.root) && r.left.Null?
    ensures r.Node? ==> EntryOf(r) == InOrder(t.root)[0]
    ensures r.Node? && Ordered(t.root) ==> forall i :: 0 <= i < |InOrder(t.root)| ==> r.key <= InOrder(t.root)[i].key
  {
    r := TraverseSide(Left, t);
  }

  /** `max`: the node with the largest key, `Null` for an empty tree. */
  method Max<V>(t: BST<V>) returns (r: Tree<V>)
    ensures r.Null? <==> t.root.Null?
    ensures r.Node? ==> EntryOf(r) in InOrder(t.root) && r.right.Null?
    ensures r.Node? ==> EntryOf(r) == InOrder(t.root)[|InOrder(t.root)| - 1]
    ensures r.Node? && Ordered(t.root) ==> forall i :: 0 <= i < |InOrder(t.root)| ==> r.key >= InOrder(t.root)[i].key
  {
    r := TraverseSide(Right, t);
  }

  // ---------------------------------------------------------------------
  // Insertion

  lemma UpsertMiss<V>(b: seq<Entry<V>>, a: seq<Entry<V>>, k: int, v: V, id: nat)
    requires AllBelow(b, k) && AllAbove(a, k)
    ensures Upsert(b + a, k, v, id) == b + [Entry(k, v, id)] + a
  {
    UpsertPrefix(b, a, k, v, id);
    assert Upsert(a, k, v, id) == [Entry(k, v, id)] + a;
  }

  lemma UpsertHit<V>(b: seq<Entry<V>>, l: seq<Entry<V>>, e: Entry<V>, r: seq<Entry<V>>, a: seq<Entry<V>>, v: V, id: nat)
    requires AllBelow(b, e.key) && AllBelow(l, e.key)
    ensures Upsert(b + (l + [e] + r) + a, e.key, v, id) == b + (l + [Entry(e.key, v, e.id)] + r) + a
  {
    var k := e.key;
    assert b + (l + [e] + r) + a == (b + l) + ([e] + (r + a));
    assert AllBelow(b + l, k) by {
      forall i | 0 <= i < |b + l| ensures (b + l)[i].key < k {
        if i < |b| { assert (b + l)[i] == b[i]; } else { assert (b + l)[i] == l[i - |b|]; }
      }
    }
    UpsertPrefix(b + l, [e] + (r + a), k, v, id);
    assert ([e] + (r + a))[0] == e && ([e] + (r + a))[1..] == r + a;
    assert (b + l) + ([Entry(k, v, e.id)] + (r + a)) == b + (l + [Entry(k, v, e.id)] + r) + a;
  }

  /** A fresh or overwritten node spliced into the search hole gives the upsert of the old entries. */
  lemma InsertSplice<V>(t: Tree<V>, y: Tree<V>, anc: seq<Frame<V>>, key: int, value: V, id: nat)
    requires Framed(anc) && Ordered(y) && (y.Null? || y.key == key)
    requires InOrder(t) == Before(anc) + InOrder(y) + After(anc)
    requires AllBelow(Before(anc), key) && AllAbove(After(anc), key)
    ensures var leaf := if y.Node? then y.(value := value) else Node(key, value, Null, Null, id);
      InOrder(Rebuild(leaf, anc)) == Upsert(InOrder(t), key, value, id)
  {
    if y.Null? {
      InsertMissSplice(t, anc, key, value, id);
    } else {
      InsertHitSplice(t, y, anc, value, id);
    }
  }

  lemma InsertMissSplice<V>(t: Tree<V>, anc: seq<Frame<V>>, key: int, value: V, id: nat)
    requires Framed(anc) && InOrder(t) == Before(anc) + InOrder<V>(Null) + After(anc)
    requires AllBelow(Before(anc), key) && AllAbove(After(anc), key)
    ensures InOrder(Rebuild(Node(key, value, Null, Null, id), anc)) == Upsert(InOrder(t), key, value, id)
  {
    var leaf := Node(key, value, Null, Null, id);
    InOrderRebuild(leaf, anc);
    var b, a := Before(anc), After(anc);
    assert InOrder(leaf) == [Entry(key, value, id)];
    assert InOrder<V>(Null) == [] && b + [] == b;
    assert InOrder(t) == b + a;
    UpsertMiss(b, a, key, value, id);
  }

  lemma InsertHitSplice<V>(t: Tree<V>, y: Tree<V>, anc: seq<Frame<V>>, value: V, id: nat)
    requires Framed(anc) && y.Node? && Ordered(y)
    requires InOrder(t) == Before(anc) + InOrder(y) + After(anc)
    requires AllBelow(Before(anc), y.key)
    ensures InOrder(Rebuild(y.(value := value), anc)) == Upsert(InOrder(t), y.key, value, id)
  {
    var leaf := y.(value := value);
    InOrderRebuild(leaf, anc);
    var l, e, r := InOrder(y.left), EntryOf(y), InOrder(y.right);
    assert InOrder(y) == l + [e] + r && InOrder(leaf) == l + [Entry(y.key, value, y.id)] + r;
    OrderedNode(y);
    UpsertHit(Before(anc), l, e, r, After(anc), value, id);
  }

  /**
   * `insert`: no key gives a clone; an empty tree gives a one-node tree with
   * id 1; otherwise the searched node gets the new value (keeping its id and
   * children) or a new leaf with id `size + 1` fills the hole, and the path is
   * rebuilt. On an ordered tree this is the upsert of the in-order entries.
   */
  method Insert<V>(t: BST<V>, key: Option<int>, value: V) returns (r: BST<V>)
    ensures r.count == |InOrder(r.root)|
    ensures key.None? ==> r.root == t.root
    ensures key.Some? && t.count == 0 ==> r.root == Node(key.value, value, Null, Null, 1)
    ensures key.Some? && Valid(t) ==> Valid(r) && InOrder(r.root) == Upsert(InOrder(t.root), key.value, value, t.count + 1)
  {
    if key.None? {
      r := Clone(t);
    } else if t.count == 0 {
      r := MakeTree(Node(key.value, value, Null, Null, 1));
    } else {
      r := InsertSearched(t, key.value, value);
    }
    if key.Some? && Valid(t) {
      UpsertSorted(InOrder(t.root), key.value, value, t.count + 1);
    }
  }

  /** The searching branch of `insert`, on a tree of positive size. */
  method InsertSearched<V>(t: BST<V>, key: int, value: V) returns (r: BST<V>)
    requires t.count > 0
    ensures r.count == |InOrder(r.root)|
    ensures Valid(t) ==> InOrder(r.root) == Upsert(InOrder(t.root), key, value, t.count + 1)
  {
    var (node, ancestors) := Search(t.root, key);
    var leaf := if node.Node? then node.(value := value) else Node(key, value, Null, Null, t.count + 1);
    if Valid(t) {
      SearchSplit(t.root, key);
      InsertSplice(t.root, node, ancestors, key, value, t.count + 1);
    }
    PathRebuild(t.root, ancestors, node);
    var root := ConstructFromLeaf(leaf, ancestors);
    r := MakeTree(root);
  }

  /** The entries after inserting one `(key, value)` pair into a valid tree with these entries. */
  function InsertEntry<V>(es: seq<Entry<V>>, p: (Option<int>, V)): seq<Entry<V>>
  {
    if p.0.None? then es else Upsert(es, p.0.value, p.1, |es| + 1)
  }

  /** The entries after inserting the pairs one by one, left to right. */
  function InsertEntries<V>(es: seq<Entry<V>>, ps: seq<(Option<int>, V)>): seq<Entry<V>>
    decreases |ps|
  {
    if ps == [] then es else InsertEntry(InsertEntries(es, ps[..|ps| - 1]), ps[|ps| - 1])
  }

  /** The value of the last pair with key `k`, if any. */
  function LastValue<V>(ps: seq<(Option<int>, V)>, k: int): Option<V>
    decreases |ps|
  {
    if ps == [] then None
    else if ps[|ps| - 1].0 == Some(k) then Some(ps[|ps| - 1].1)
    else LastValue(ps[..|ps| - 1], k)
  }

  /** `insertAll`: the last pair for a key wins; keys not in the list keep their value. */
  lemma {:induction false} InsertEntriesLookup<V>(es: seq<Entry<V>>, ps: seq<(Option<int>, V)>, k: int)
    ensures Lookup(InsertEntries(es, ps), k) == if LastValue(ps, k).Some? then LastValue(ps, k) else Lookup(es, k)
    decreases |ps|
  {
    if ps != [] {
      var init, p := ps[..|ps| - 1], ps[|ps| - 1];
      InsertEntriesLookup(es, init, k);
      if p.0.Some? {
        LookupUpsert(InsertEntries(es, init), p.0.value, p.1, |InsertEntries(es, init)| + 1, k);
      }
    }
  }

  lemma {:induction false} InsertEntriesSorted<V>(es: seq<Entry<V>>, ps: seq<(Option<int>, V)>)
    requires Sorted(es)
    ensures Sorted(InsertEntries(es, ps))
    decreases |ps|
  {
    if ps != [] {
      var init, p := ps[..|ps| - 1], ps[|ps| - 1];
      InsertEntriesSorted(es, init);
      if p.0.Some? {
        UpsertSorted(InsertEntries(es, init), p.0.value, p.1, |InsertEntries(es, init)| + 1);
      }
    }
  }

  /** `insertAll`: inserts the pairs one after the other into the growing tree. */
  method InsertAll<V>(t: BST<V>, pairs: seq<(Option<int>, V)>) returns (r: BST<V>)
    ensures pairs == [] ==> r == t
    ensures Valid(t) ==> Valid(r) && InOrder(r.root) == InsertEntries(InOrder(t.root), pairs)
  {
    r := t;
    for i := 0 to |pairs|
      invariant i == 0 ==> r == t
      invariant Valid(t) ==> Valid(r) && InOrder(r.root) == InsertEntries(InOrder(t.root), pairs[..i])
    {
      r := Insert(r, pairs[i].0, pairs[i].1);
      assert pairs[..i + 1][..i] == pairs[..i];
    }
    assert pairs[..|pairs|] == pairs;
  }

  // ---------------------------------------------------------------------
  // Removal

  /** The root holds `k` and has no children: the one case the source's removal leaves untouched. */
  predicate SoleNode<V>(root: Tree<V>, k: int)
  {
    root.Node? && root.key == k && root.left.Null? && root.right.Null?
  }

  /**
   * `removeNoChildren`: the childless node is cut from its parent (the top
   * frame) and the path above is rebuilt. With no parent the node itself
   * comes back, so the removed node survives.
   */
  method RemoveNoChildren<V>(node: Tree<V>, ancestors: seq<Frame<V>>) returns (root: Tree<V>)
    requires Framed(ancestors) && node.Node? && node.left.Null? && node.right.Null?
    ensures ancestors == [] ==> root == node
    ensures ancestors != [] ==> InOrder(root) == Before(ancestors) + ChildEntries(node) + After(ancestors)
  {
    var stack, leaf := ancestors, node;
    if |stack| > 0 {
      var f := stack[|stack| - 1];
      PopRebuild(Null, stack);
      stack := stack[..|stack| - 1];
      leaf := WithChild(f.parent, f.side, Null);
      InOrderRebuild(Null, ancestors);
    }
    root := ConstructFromLeaf(leaf, stack);
  }

  /** The intended removal of a childless node: with no parent the tree becomes empty. */
  method RemoveNoChildrenIntended<V>(node: Tree<V>, ancestors: seq<Frame<V>>) returns (root: Tree<V>)
    requires Framed(ancestors) && node.Node? && node.left.Null? && node.right.Null?
    ensures InOrder(root) == Before(ancestors) + ChildEntries(node) + After(ancestors)
  {
    if ancestors == [] {
      root := Null;
    } else {
      root := RemoveNoChildren(node, ancestors);
    }
  }

  /** The in-order entries of a node's two subtrees: what is left once the node itself is gone. */
  function ChildEntries<V>(node: Tree<V>): seq<Entry<V>>
    requires node.Node?
  {
    InOrder(node.left) + InOrder(node.right)
  }

  lemma OneChildEntries<V>(node: Tree<V>)
    requires node.Node? && |Children(node)| == 1
    ensures InOrder(Children(node)[0].1) == ChildEntries(node)
  {
    if node.left.Node? {
      assert Children(node)[0].1 == node.left && node.right.Null?;
      assert InOrder(node.left) + [] == InOrder(node.left);
    } else {
      assert Children(node)[0].1 == node.right;
      assert [] + InOrder(node.right) == InOrder(node.right);
    }
  }

  /** `removeOneChild`: the only child takes the node's place below its parent (or becomes the root). */
  method RemoveOneChild<V>(node: Tree<V>, ancestors: seq<Frame<V>>) returns (root: Tree<V>)
    requires Framed(ancestors) && node.Node? && |Children(node)| == 1
    ensures InOrder(root) == Before(ancestors) + ChildEntries(node) + After(ancestors)
  {
    var child := Children(node)[0].1;
    OneChildEntries(node);
    InOrderRebuild(child, ancestors);
    if |ancestors| == 0 {
      root := child;
      assert Before(ancestors) + InOrder(child) + After(ancestors) == InOrder(child);
    } else {
      var f := ancestors[|ancestors| - 1];
      PopRebuild(child, ancestors);
      var leaf := WithChild(f.parent, f.side, child);
      root := ConstructFromLeaf(leaf, ancestors[..|ancestors| - 1]);
    }
  }

  lemma Regroup6<E>(a: seq<E>, b: seq<E>, c: seq<E>, d: seq<E>, e: seq<E>, f: seq<E>)
    ensures (a + b) + c + (d + e + f) == a + (b + c + d + e) + f
  {
  }

  lemma ExtendedPath<V>(anc: seq<Frame<V>>, n: Tree<V>, rightAnc: seq<Frame<V>>)
    requires Framed(anc) && Framed(rightAnc) && n.Node? && After(rightAnc) == []
    ensures Framed(anc + [Frame(Left, n)] + rightAnc)
    ensures Before(anc + [Frame(Left, n)] + rightAnc) == Before(anc) + Before(rightAnc)
    ensures After(anc + [Frame(Left, n)] + rightAnc) == [EntryOf(n)] + InOrder(n.right) + After(anc)
  {
    var f := [Frame(Left, n)];
    assert Before(f) == [] && After(f) == [EntryOf(n)] + InOrder(n.right) by {
      assert f[1..] == [];
    }
    BeforeAfterAppend(anc, f);
    BeforeAfterAppend(anc + f, rightAnc);
    assert Before(anc + f) == Before(anc);
    assert [] + After(anc + f) == After(anc + f);
  }

  lemma TwoChildrenOrder<V>(anc: seq<Frame<V>>, n: Tree<V>, rightAnc: seq<Frame<V>>, node: Tree<V>, iop: Tree<V>)
    requires Framed(anc) && Framed(rightAnc) && n.Node? && node.Node? && iop.Node?
    requires After(rightAnc) == [] && EntryOf(n) == EntryOf(iop) && n.right == node.right
    requires InOrder(node.left) == Before(rightAnc) + InOrder(iop.left) + [EntryOf(iop)]
    ensures Framed(anc + [Frame(Left, n)] + rightAnc)
    ensures var anc2 := anc + [Frame(Left, n)] + rightAnc;
      Before(anc2) + InOrder(iop.left) + After(anc2) == Before(anc) + ChildEntries(node) + After(anc)
  {
    ExtendedPath(anc, n, rightAnc);
    Regroup6(Before(anc), Before(rightAnc), InOrder(iop.left), [EntryOf(iop)], InOrder(node.right), After(anc));
  }

  /**
   * `removeTwoChildren`: the in-order predecessor's key, value and id move
   * into the node's place, the predecessor's old node takes the node's, and
   * that node (which has no right child) is removed along the extended path.
   */
  method RemoveTwoChildren<V>(node: Tree<V>, ancestors: seq<Frame<V>>) returns (r: BST<V>)
    requires Framed(ancestors) && node.Node? && node.left.Node? && node.right.Node?
    ensures r.count == |InOrder(r.root)|
    ensures InOrder(r.root) == Before(ancestors) + ChildEntries(node) + After(ancestors)
    decreases 2, 0
  {
    var rightAncestors, iop := FindInOrderPredecessor(node.left);
    var iopReplacement := iop.(key := node.key, value := node.value, id := node.id);
    var newIopNode := node.(key := iop.key, value := iop.value, id := iop.id, left := iopReplacement);
    TwoChildrenOrder(ancestors, newIopNode, rightAncestors, node, iop);
    var anc2 := ancestors + [Frame(Left, newIopNode)] + rightAncestors;
    assert ChildEntries(iopReplacement) == InOrder(iop.left) by {
      assert InOrder(iop.left) + [] == InOrder(iop.left);
    }
    r := RemoveFound(newIopNode.left, anc2);
  }

  /** `removeFound`: dispatches on the number of children and wraps the new root in a tree. */
  method RemoveFound<V>(node: Tree<V>, ancestors: seq<Frame<V>>) returns (r: BST<V>)
    requires Framed(ancestors) && node.Node?
    ensures r.count == |InOrder(r.root)|
    ensures ancestors == [] && node.left.Null? && node.right.Null? ==> r.root == node
    ensures !(ancestors == [] && node.left.Null? && node.right.Null?) ==>
      InOrder(r.root) == Before(ancestors) + ChildEntries(node) + After(ancestors)
    decreases |Children(node)|, 1
  {
    var n := |Children(node)|;
    if n == 1 {
      var root := RemoveOneChild(node, ancestors);
      r := MakeTree(root);
    } else if n == 2 {
      r := RemoveTwoChildren(node, ancestors);
    } else {
      var root := RemoveNoChildren(node, ancestors);
      r := MakeTree(root);
    }
  }

  lemma WithoutJoin<V>(a: seq<Entry<V>>, b: seq<Entry<V>>, k: int)
    requires Without(a, k) && Without(b, k)
    ensures Without(a + b, k)
  {
    forall i | 0 <= i < |a + b| ensures (a + b)[i].key != k {
      if i < |a| { assert (a + b)[i] == a[i]; } else { assert (a + b)[i] == b[i - |a|]; }
    }
  }

  lemma DeleteHead<V>(e: Entry<V>, rest: seq<Entry<V>>)
    ensures DeleteKey([e] + rest, e.key) == DeleteKey(rest, e.key)
  {
    assert ([e] + rest)[0] == e && ([e] + rest)[1..] == rest;
  }

  lemma RegroupAround<E>(b: seq<E>, l: seq<E>, x: seq<E>, r: seq<E>, a: seq<E>)
    ensures b + (l + x + r) + a == (b + l) + (x + (r + a))
    ensures (b + l) + (r + a) == b + (l + r) + a
  {
  }

  lemma RemoveSplice<V>(b: seq<Entry<V>>, l: seq<Entry<V>>, e: Entry<V>, r: seq<Entry<V>>, a: seq<Entry<V>>)
    requires Without(b, e.key) && Without(l, e.key) && Without(r, e.key) && Without(a, e.key)
    ensures DeleteKey(b + (l + [e] + r) + a, e.key) == b + (l + r) + a
  {
    var k := e.key;
    RegroupAround(b, l, [e], r, a);
    DeleteKeyAppend(b + l, [e] + (r + a), k);
    WithoutJoin(b, l, k);
    DeleteKeyWithout(b + l, k);
    DeleteHead(e, r + a);
    WithoutJoin(r, a, k);
    DeleteKeyWithout(r + a, k);
  }

  /** Where the search stops at a node holding `k`, deleting `k` leaves the entries around it and of its subtrees. */
  lemma RemoveHitSplit<V>(t: Tree<V>, node: Tree<V>, anc: seq<Frame<V>>, k: int)
    requires Framed(anc) && Ordered(node) && node.Node? && node.key == k
    requires InOrder(t) == Before(anc) + InOrder(node) + After(anc)
    requires AllBelow(Before(anc), k) && AllAbove(After(anc), k)
    ensures DeleteKey(InOrder(t), k) == Before(anc) + ChildEntries(node) + After(anc)
  {
    OrderedNode(node);
    var b, l, r, a := Before(anc), InOrder(node.left), InOrder(node.right), After(anc);
    assert Without(b, k) && Without(l, k) && Without(r, k) && Without(a, k);
    RemoveSplice(b, l, EntryOf(node), r, a);
  }

  /** Where the search finds no node, no entry has key `k`. */
  lemma RemoveMissSplit<V>(t: Tree<V>, anc: seq<Frame<V>>, k: int)
    requires Framed(anc)
    requires InOrder(t) == Before(anc) + InOrder(Null) + After(anc)
    requires AllBelow(Before(anc), k) && AllAbove(After(anc), k)
    ensures DeleteKey(InOrder(t), k) == InOrder(t)
  {
    var b, a := Before(anc), After(anc);
    assert InOrder<V>(Null) == [] && b + [] == b;
    assert InOrder(t) == b + a;
    assert Without(b, k) && Without(a, k);
    WithoutJoin(b, a, k);
    DeleteKeyWithout(b + a, k);
  }

  /** A search for the key of a sole node stops at the root with an empty stack. */
  lemma SoleNodeSearch<V>(root: Tree<V>, k: int)
    requires SoleNode(root, k)
    ensures Search(root, k) == (root, [])
  {
    assert RecursiveSearch(root, k, []) == (root, []);
  }

  /**
   * `remove`: with an empty tree, no key or a key not found the result is a
   * clone; otherwise the found node is removed along its search path. On an
   * ordered tree this deletes the key from the in-order entries, except that
   * a tree whose only node holds the key comes back unchanged.
   */
  method Remove<V>(t: BST<V>, key: Option<int>) returns (r: BST<V>)
    ensures r.count == |InOrder(r.root)|
    ensures key.None? || t.count == 0 ==> r.root == t.root
    ensures key.Some? && Find(t, key.value).Null? ==> r.root == t.root
    ensures key.Some? && SoleNode(t.root, key.value) ==> r.root == t.root
    ensures key.Some? && Valid(t) && !SoleNode(t.root, key.value) ==>
      Valid(r) && InOrder(r.root) == DeleteKey(InOrder(t.root), key.value)
  {
    if key.None? || t.count == 0 {
      r := Clone(t);
      return;
    }
    var (node, ancestors) := Search(t.root, key.value);
    if node.Null? {
      r := Clone(t);
      if Valid(t) {
        SearchSplit(t.root, key.value);
        RemoveMissSplit(t.root, ancestors, key.value);
      }
    } else {
      r := RemoveSearched(t, key.value, node, ancestors);
    }
  }

  /** The branch of `remove` that found a node: it is removed along its path. */
  method RemoveSearched<V>(t: BST<V>, k: int, node: Tree<V>, ancestors: seq<Frame<V>>) returns (r: BST<V>)
    requires Search(t.root, k) == (node, ancestors) && node.Node?
    ensures r.count == |InOrder(r.root)|
    ensures SoleNode(t.root, k) ==> r.root == t.root
    ensures Valid(t) && !SoleNode(t.root, k) ==> Valid(r) && InOrder(r.root) == DeleteKey(InOrder(t.root), k)
  {
    PathRebuild(t.root, ancestors, node);
    if SoleNode(t.root, k) {
      SoleNodeSearch(t.root, k);
    }
    r := RemoveFound(node, ancestors);
    if Valid(t) {
      SearchSplit(t.root, k);
      RemoveHitSplit(t.root, node, ancestors, k);
      DeleteKeySorted(InOrder(t.root), k);
    }
  }

  /**
   * The intended removal: identical to `remove` except that a childless
   * node without parent leaves an empty tree, so the key is always deleted.
   */
  method RemoveIntended<V>(t: BST<V>, key: Option<int>) returns (r: BST<V>)
    ensures r.count == |InOrder(r.root)|
    ensures key.None? ==> r.root == t.root
    ensures key.Some? && Valid(t) ==> Valid(r) && InOrder(r.root) == DeleteKey(InOrder(t.root), key.value)
  {
    if key.None? || t.count == 0 {
      r := Clone(t);
      if key.Some? && Valid(t) {
        assert InOrder(t.root) == [];
      }
      return;
    }
    var (node, ancestors) := Search(t.root, key.value);
    if node.Null? {
      r := Clone(t);
      if Valid(t) {
        SearchSplit(t.root, key.value);
        RemoveMissSplit(t.root, ancestors, key.value);
      }
    } else if |Children(node)| == 0 {
      PathRebuild(t.root, ancestors, node);
      var root := RemoveNoChildrenIntended(node, ancestors);
      r := MakeTree(root);
      if Valid(t) {
        SearchSplit(t.root, key.value);
        RemoveHitSplit(t.root, node, ancestors, key.value);
        DeleteKeySorted(InOrder(t.root), key.value);
      }
    } else {
      r := RemoveSearched(t, key.value, node, ancestors);
    }
  }

  // ---------------------------------------------------------------------
  // Insert, then remove

  /** A one-node tree's entries are its root's entry. */
  lemma SoleNodeEntries<V>(root: Tree<V>, k: int)
    ensures SoleNode(root, k) ==> InOrder(root) == [EntryOf(root)]
  {
  }

  /**
   * Inserting a key the tree lacks and then removing it: a non-empty tree
   * gets its entries and its size back, but an empty tree keeps the node
   * just inserted, because removal leaves a lone root in place.
   */
  method InsertThenRemove<V>(t: BST<V>, k: int, v: V) returns (r: BST<V>)
    requires Valid(t)
    ensures t.count > 0 && Without(InOrder(t.root), k) ==>
      Valid(r) && InOrder(r.root) == InOrder(t.root) && r.count == t.count
    ensures t.count == 0 ==> r.root == Node(k, v, Null, Null, 1) && r.count == 1
  {
    var inserted := Insert(t, Some(k), v);
    SoleNodeEntries(inserted.root, k);
    if t.count > 0 && Without(InOrder(t.root), k) {
      DeleteUpsert(InOrder(t.root), k, v, t.count + 1);
    }
    r := Remove(inserted, Some(k));
  }

  /** With the intended removal the round trip gives back every tree's entries and size. */
  method InsertThenRemoveIntended<V>(t: BST<V>, k: int, v: V) returns (r: BST<V>)
    requires Valid(t)
    ensures Without(InOrder(t.root), k) ==>
      Valid(r) && InOrder(r.root) == InOrder(t.root) && r.count == t.count
  {
    var inserted := Insert(t, Some(k), v);
    if Without(InOrder(t.root), k) {
      DeleteUpsert(InOrder(t.root), k, v, t.count + 1);
    }
    r := RemoveIntended(inserted, Some(k));
  }
}
