/**
 * The immutable tree node of the persistent search tree.
 *
 * A node is a frozen record of key, value, left child, right child and id;
 * an absent child is `Null`. Reading a field is a datatype destructor, and
 * "setting" a field means building a new record that differs in that one
 * slot, as `store.set(...)` does on the node's immutable store.
 */
module BSTNode {

  /** The child slot names `_left` and `_right`. */
  datatype Side = Left | Right

  /** A node, or `Null` where the source holds `null`. */
  datatype Tree<V> = Null | Node(key: int, value: V, left: Tree<V>, right: Tree<V>, id: nat)

  function Other(side: Side): (o: Side)
    ensures o != side
  {
    if side == Left then Right else Left
  }

  /** `node[side]`: the child in the named slot. */
  function Child<V>(n: Tree<V>, side: Side): Tree<V>
    requires n.Node?
  {
    if side == Left then n.left else n.right
  }

  /**
   * `new BSTNode(node._store.set(side, c))`: a copy of `n` whose `side` slot
   * holds `c`; every other field of the store is carried over unchanged.
   */
  function WithChild<V>(n: Tree<V>, side: Side, c: Tree<V>): (r: Tree<V>)
    requires n.Node?
    ensures r.Node? && Child(r, side) == c
    ensures Child(r, Other(side)) == Child(n, Other(side))
    ensures r.key == n.key && r.value == n.value && r.id == n.id
  {
    if side == Left then n.(left := c) else n.(right := c)
  }

  /**
   * The `children` getter: the present (non-null) children, each tagged with
   * its side, left before right.
   */
  function Children<V>(n: Tree<V>): (cs: seq<(Side, Tree<V>)>)
    requires n.Node?
    ensures |cs| <= 2
    ensures forall i :: 0 <= i < |cs| ==> cs[i].1.Node? && cs[i].1 == Child(n, cs[i].0)
    ensures forall i, j :: 0 <= i < j < |cs| ==> cs[i].0 == Left && cs[j].0 == Right
    ensures n.left.Node? <==> (Left, n.left) in cs
    ensures n.right.Node? <==> (Right, n.right) in cs
    ensures |cs| == (if n.left.Node? then 1 else 0) + (if n.right.Node? then 1 else 0)
  {
    (if n.left.Node? then [(Left, n.left)] else []) + (if n.right.Node? then [(Right, n.right)] else [])
  }
}
