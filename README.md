# persist — a Dafny model of its persistent data structures

`persist` is a small JavaScript library of persistent (immutable) data
structures. Every operation leaves its receiver untouched and returns a new
structure. This project models the four structures at its core and proves
what their operations promise:

- **Binary search tree** (`dist/BSTNode.js`, `dist/BSTree.js`), in modules
  `BSTNode` and `BSTree`. A node is the value `Tree<V>`, with an integer key,
  a value, two children and the insertion id the library stores. A tree is
  `BST(root, count)`. Search records the path it walks as a stack of
  `Frame(side, parent)`. `constructFromLeaf` path-copies a new subtree back up
  that stack, and `Rebuild` is that copy. The tree's contents are its in-order
  entry sequence `InOrder`. Insert and remove are proved against two
  reference operations on sorted entry sequences, `Upsert` and `DeleteKey`.
  Their lookup and sortedness laws are proved as well.
- **Binary heap** (`dist/Heap.js`), in module `BinaryHeap`. A heap is
  `Heap(storage, maxHeap)`. `storage` is the array-backed complete binary
  tree, with parent `(i - 1) / 2` and children `2i + 1` and `2i + 2`.
  `siftDown`, `siftUp`, `buildHeap` and `heapSort` keep their loops, with
  invariants. Each is proved to permute its input (multiset equality) and to
  establish heap order.
- **Linked list** (`dist/LList.js`), in module `LinkedList`. The list's node
  objects live in a node store `nodes: seq<LNode<T>>`. A node's identity is
  its index in the store, a `Link` is `Null` or `At(index)`, and
  `LList(nodes, head, size, circular)` is the list object. `Chain(l)` is the
  sequence of node indexes reached by following `next` from `head` for `size`
  steps. `Data(l)` is the data along it. `Valid(l)` says the chain has
  exactly `size` distinct nodes, and that the last node's `next` is `Null`,
  or `head` for a circular list. Prepending to a list keeps the old store as
  a prefix, so the new list shares the old list's nodes as the library does.
- **Circular list** (`dist/CLList.js`), in module `CircularList`. These are
  the same `LList` values with `circular` set. Each operation rebuilds a
  fresh circular list from the data it collects.

JavaScript's exceptions and `Error` returns are modelled as `Failure` values
of `Result`:

- `NullTail`: a write through the `null` returned by the `tail` getter of an
  empty list.
- `FrozenNode`: a write to a frozen node.
- `NotANode`: the `Error` returned for an argument that is not a node.

## Model

| member | source | states |
|---|---|---|
| BSTNode.WithChild | dist/BSTree.js:501-504 | the copied node has the new child on the chosen side; its other child, key, value and id are unchanged |
| BSTNode.Children | dist/BSTNode.js:63-71 | lists exactly the non-null children, left before right, each paired with its side |
| BSTree.DefaultComp | dist/BSTree.js:266-268 | -1, 0 or 1 exactly when a < b, a == b or a > b |
| BSTree.RecursiveSearch | dist/BSTree.js:370-384 | pushes onto the given stack a path that descends from the node toward the key, and ends at the node holding the key or at a null child |
| BSTree.Search | dist/BSTree.js:370-384 | starting with an empty stack, returns a valid path toward the key; the node reached is null or holds the key |
| BSTree.SearchSplit | dist/BSTree.js:370-384 | on an ordered tree, the path splits the in-order entries into those before the path, the subtree reached and those after; every key before is smaller than the searched key and every key after is larger |
| BSTree.SearchBounds | dist/BSTree.js:370-384 | every key left of a search path is below the key searched for, and every key right of it is above |
| BSTree.LookupSearch | dist/BSTree.js:98-117 | on an ordered tree, search finds a node exactly when the key is among the entries, and the node carries that key's value |
| BSTree.PathRebuild | dist/BSTree.js:495-507 | rebuilding a search path's own end node up its ancestors gives back the original tree |
| BSTree.PathCopy | dist/BSTree.js:495-507 | path copying changes only the nodes on the path; every subtree off the path is shared unchanged, and the new subtree sits at the path's end |
| BSTree.InOrderRebuild | dist/BSTree.js:495-507 | the rebuilt tree's in-order entries are the entries left of the path, then the new subtree's entries, then those right of the path |
| BSTree.RebuildAppend | dist/BSTree.js:452-460 | rebuilding up a concatenated stack equals rebuilding up the lower part and then the upper part |
| BSTree.BeforeAfterAppend | dist/BSTree.js:452-460 | the entries left and right of a concatenated stack are those of each part, in tree order |
| BSTree.AfterAllRight | dist/BSTree.js:314-322 | a path taking only right turns has no entry after it |
| BSTree.LookupUpsert | dist/BSTree.js:50-66 | after inserting (k, v), looking up k gives v, and every other key keeps its lookup |
| BSTree.UpsertSorted | dist/BSTree.js:50-66 | inserting into sorted entries keeps them sorted, and adds no entry except one for k |
| BSTree.LookupDeleteKey | dist/BSTree.js:76-89 | after removing k, looking up k gives nothing, and every other key keeps its lookup |
| BSTree.DeleteKeySorted | dist/BSTree.js:76-89 | removing from sorted entries keeps them sorted, and leaves only old entries whose key differs from k |
| BSTree.DeleteUpsert | dist/BSTree.js:49-89 | inserting a key the entries lack adds exactly one entry, and deleting that key then gives the entries back |
| BSTree.Find | dist/BSTree.js:98-100 | the node found is null or holds the key; on an ordered tree it is a node exactly when the key is present |
| BSTree.Get | dist/BSTree.js:109-117 | on an ordered tree, the value stored under the key, or nothing when the key is absent |
| BSTree.Recount | dist/BSTree.js:299-305 | the number of nodes in the tree |
| BSTree.MakeTree | dist/BSTree.js:28-39 | the new tree has the given root, and its count is that root's node count |
| BSTree.Clone | dist/BSTree.js:164-166 | the clone shares the root and recounts it; cloning a tree whose count is right gives the same tree |
| BSTree.Keys | dist/BSTree.js:224-230 | the keys in in-order position; strictly increasing on an ordered tree |
| BSTree.Values | dist/BSTree.js:238-244 | the values in in-order position |
| BSTree.Contains | dist/BSTree.js:126-128 | true exactly when some entry stores the value |
| BSTree.ValuesContain | dist/BSTree.js:126-128 | the value is among `values()` exactly when some entry stores it |
| BSTree.ConstructFromLeaf | dist/BSTree.js:495-507 | the loop's result is the path copy of the node up the ancestor stack |
| BSTree.FindInOrderPredecessor | dist/BSTree.js:314-322 | walks right turns only to a node with no right child; the subtree's in-order entries end with that node's entry, so it is the subtree's largest |
| BSTree.TraverseSide | dist/BSTree.js:348-357 | null exactly for an empty tree; otherwise a node with no child on that side, holding the first (Left) or last (Right) in-order entry |
| BSTree.Min | dist/BSTree.js:204-206 | null exactly for an empty tree; otherwise the first in-order entry, a node with no left child, and on an ordered tree no key is smaller |
| BSTree.Max | dist/BSTree.js:214-216 | null exactly for an empty tree; otherwise the last in-order entry, a node with no right child, and on an ordered tree no key is larger |
| BSTree.InsertSplice | dist/BSTree.js:56-64 | overwriting the found node's value, or hanging a new leaf where the search fell off, and path copying, is the reference insert on the entries |
| BSTree.Insert | dist/BSTree.js:50-66 | an undefined key changes nothing; an empty tree gets a single node with id 1; otherwise the result stays ordered and its entries are the old ones with k set to v (new id count + 1) |
| BSTree.InsertEntriesLookup | dist/BSTree.js:148-156 | after inserting a list of pairs, each key maps to the value of its last pair, or keeps its old value when no pair names it |
| BSTree.InsertEntriesSorted | dist/BSTree.js:148-156 | inserting a list of pairs keeps the entries sorted |
| BSTree.InsertAll | dist/BSTree.js:148-156 | inserts the pairs left to right; the result stays ordered and its entries are the entries with each pair inserted in turn |
| BSTree.RemoveNoChildren | dist/BSTree.js:395-407 | with ancestors, the parent loses the leaf, so the entries are those around the path; with no ancestors the leaf itself is returned (see Findings) |
| BSTree.RemoveNoChildrenIntended | dist/BSTree.js:395-407 | the entries are those around the path, with no ancestors too: removing the sole node gives the empty tree |
| BSTree.RemoveOneChild | dist/BSTree.js:418-432 | the only child takes the node's place; the entries are those around the path with the node's entry gone |
| BSTree.TwoChildrenOrder | dist/BSTree.js:444-461 | removing the in-order predecessor from below a copy that carries its key and value leaves the entries of the original subtree minus the removed node |
| BSTree.RemoveTwoChildren | dist/BSTree.js:444-461 | the predecessor's key and value replace the node's, then the predecessor is removed; the entries are those around the path with the node's entry gone |
| BSTree.RemoveFound | dist/BSTree.js:473-485 | dispatches on the number of children; except for a lone root, the node's entry leaves the in-order entries and everything else stays in order |
| BSTree.RemoveHitSplit | dist/BSTree.js:84-87 | on an ordered tree, dropping the found node's entry from the entries around its path is the reference delete of its key |
| BSTree.RemoveMissSplit | dist/BSTree.js:84-87 | when the search falls off the tree, the reference delete removes nothing |
| BSTree.SoleNodeSearch | dist/BSTree.js:395-407 | searching a tree made of one node for its key finds that node with an empty stack |
| BSTree.Remove | dist/BSTree.js:76-89 | undefined key, empty tree or absent key: same root; a tree that is one node holding the key comes back unchanged; otherwise the result stays ordered and its entries are the reference delete |
| BSTree.RemoveIntended | dist/BSTree.js:76-89 | the result stays ordered and its entries are the reference delete of the key, for every ordered tree |
| BSTree.InsertThenRemove | dist/BSTree.js:49-89 | inserting an absent key and removing it gives a non-empty tree back its entries and its size; an empty tree keeps the inserted node, size 1 (see Findings) |
| BSTree.InsertThenRemoveIntended | dist/BSTree.js:49-89 | with the intended removal, inserting an absent key and removing it gives every tree back its entries and its size |
| BinaryHeap.DefaultComparator | dist/Heap.js:276-286 | 1, -1 or 0 exactly when a > b, a < b or a == b |
| BinaryHeap.FindParentWithChild | dist/Heap.js:319-321 | no parent exactly for the root; otherwise a smaller index of which the child is the left or right child |
| BinaryHeap.FindChildrenWithParent | dist/Heap.js:307-314 | each child index is present exactly when it lies inside the heap; no right child without a left one |
| BinaryHeap.ParentChildInverse | dist/Heap.js:307-321 | p is the parent of c exactly when c is one of p's children |
| BinaryHeap.IntegrityCheck | dist/Heap.js:237-251 | true exactly when a parent or child is missing, or the pair is in heap order (parent <= child for a min-heap, >= for a max-heap) |
| BinaryHeap.SwitchNodes | dist/Heap.js:297-302 | exchanges two entries and keeps all the others; the result is a permutation |
| BinaryHeap.RootIsExtreme | dist/Heap.js:219-221 | in heap order the root is in order with every element: the minimum of a min-heap, the maximum of a max-heap |
| BinaryHeap.SelectChild | dist/Heap.js:182-195 | a child that exists; with two children, the one that fits above the other, and the left one on a tie |
| BinaryHeap.SiftDownStep | dist/Heap.js:181-196 | swapping an out-of-order parent with the selected child moves the only possible violation down to that child |
| BinaryHeap.SiftDown | dist/Heap.js:168-199 | a permutation that leaves the entries before the index alone; if the heap below the index was ordered, it is ordered from the index; an already ordered heap is unchanged |
| BinaryHeap.SiftUpStep | dist/Heap.js:204-216 | swapping a child with its out-of-order parent moves the only possible violation up to the parent |
| BinaryHeap.SiftUp | dist/Heap.js:204-216 | a permutation; a heap whose only violation is at the child's position comes out in heap order |
| BinaryHeap.NumberOfSifts | dist/Heap.js:114-115 | -1 for no elements; otherwise between n / 2 and n - 1, so the loop's indexes below it include the last parent, n / 2 - 1, and no parent is skipped |
| BinaryHeap.SkippedIsLeaf | dist/Heap.js:114-120 | every position above the sift count is a leaf |
| BinaryHeap.BuildHeap | dist/Heap.js:106-131 | a permutation of the input in heap order; an input already in heap order comes back unchanged |
| BinaryHeap.NewHeap | dist/Heap.js:24-47 | a heap of the given kind holding a heap-ordered permutation of the list |
| BinaryHeap.FromHeap | dist/Heap.js:31-36 | copying another heap keeps its storage as it is and takes the requested kind |
| BinaryHeap.FromHeapMayBreakOrder | dist/Heap.js:31-36 | a min-heap [1, 2] copied as a max-heap is not in max-heap order |
| BinaryHeap.Peek | dist/Heap.js:219-221 | nothing for an empty heap; otherwise the root, which in heap order fits above every element |
| BinaryHeap.Push | dist/Heap.js:53-60 | one element longer, heap ordered, and its multiset gains the value |
| BinaryHeap.LastMovedToRoot | dist/Heap.js:78-81 | moving the last element to the root and dropping the last slot leaves heap order everywhere below the root |
| BinaryHeap.Pop | dist/Heap.js:71-88 | an empty heap is returned as is; otherwise the root leaves the multiset, or is replaced by the given value, and the result is heap ordered |
| BinaryHeap.Replace | dist/Heap.js:93-95 | the root is replaced by the value and the result is heap ordered with the same size |
| BinaryHeap.Merge | dist/Heap.js:140-143 | a heap of the second heap's kind holding both heaps' elements, in heap order |
| BinaryHeap.EmitStep | dist/Heap.js:154-157 | emitting the root of a heap-ordered heap keeps the output in heap order and ahead of everything left |
| BinaryHeap.HeapSort | dist/Heap.js:148-163 | emits (n + 1) / 2 elements, not n (see Findings); they are drawn from the heap, in heap order, and each one fits above every element not emitted |
| BinaryHeap.HeapSortAll | dist/Heap.js:148-163 | emits every element once, in heap order (ascending for a min-heap, descending for a max-heap) |
| LinkedList.ConvertToSeq | dist/LList.js:242-244 | a list of items is kept; a single item becomes a one-element sequence |
| LinkedList.Walk | dist/LList.js:140-150 | at most n steps, each to a node of the store, starting at the given link and following `next` |
| LinkedList.MakeHead | dist/LList.js:204-222 | one fresh node per item, holding it, each linked to the next; the last one links to null |
| LinkedList.WalkRun | dist/LList.js:204-222 | walking a run of freshly made nodes visits them in order and then continues where the run's last node points |
| LinkedList.WalkPrefix | dist/LList.js:34-42 | extending the node store leaves every existing walk unchanged, so the old list is shared as it is |
| LinkedList.FreshValid | dist/LList.js:31-33 | the fresh nodes form a valid list that holds exactly the items |
| LinkedList.ForEach | dist/LList.js:140-150 | visits exactly the list's nodes, in order, stopping after one round of a circular list |
| LinkedList.Map | dist/LList.js:153-160 | one result per node, in list order, each the function applied to that node |
| LinkedList.Filter | dist/LList.js:163-171 | keeps, in list order, exactly the nodes the predicate accepts |
| LinkedList.KeepLast | dist/LList.js:184-192 | in a valid non-empty list, the last node is the only one pointing at the sentinel |
| LinkedList.Tail | dist/LList.js:184-192 | null for an empty list; otherwise the last node of the chain |
| LinkedList.IsEmpty | dist/LList.js:174-176 | true exactly when size is 0, that is, when the list holds no data |
| LinkedList.GetData | dist/LList.js:227-229 | the node's data; a null or unknown node is an error |
| LinkedList.MapData | dist/LList.js:153-160 | mapping `getData` over the list gives its data in order |
| LinkedList.PrependedValid | dist/LList.js:34-42 | new nodes linked onto an old list's head form a valid list whose chain is the new nodes followed by the old chain |
| LinkedList.ClosedValid | dist/LList.js:43-46 | pointing the tail back at the head gives a valid circular list with the same chain and data |
| LinkedList.PrependTo | dist/LList.js:34-42 | the data is the items followed by the old list's data; the old nodes are shared, unchanged, as the chain's suffix |
| LinkedList.CloseCircle | dist/LList.js:43-46 | an empty list fails on the null tail; a frozen tail fails; otherwise the result is circular with the same data |
| LinkedList.NewFresh | dist/LList.js:25-49 | a list of exactly the items; circular over no items fails on the null tail |
| LinkedList.NewPrepended | dist/LList.js:34-46 | prepending shares the old list's nodes after the new items; asking for a circular list fails because the old tail is frozen |
| LinkedList.NewLList | dist/LList.js:25-49 | the constructor: the items alone, or the items in front of a shared prepended list, optionally closed into a circle, with the failures above |
| LinkedList.Fresh | dist/LList.js:25-33 | a valid linear list holding exactly the items |
| LinkedList.Prepend | dist/LList.js:60-75 | the data is the new items followed by the old data; a linear list's nodes are shared; circularity is kept |
| LinkedList.Append | dist/LList.js:85-88 | the data is the old data followed by the new items; circularity is kept |
| LinkedList.ReversedAt | dist/LList.js:97-104 | position k of the reversal holds position n - 1 - k of the original |
| LinkedList.ReversedTwice | dist/LList.js:97-104 | reversing twice gives back the original |
| LinkedList.Reverse | dist/LList.js:97-104 | the data reversed; circularity is kept |
| LinkedList.KeepOthers | dist/LList.js:116-119 | filtering out one node of the chain drops exactly its data; filtering out a node off the chain keeps everything |
| LinkedList.RemoveHead | dist/LList.js:113-120 | the data without its first element, or empty for an empty list; a one-node circular list fails on the null tail |
| LinkedList.RemoveTail | dist/LList.js:128-135 | the data without its last element, or empty for an empty list; a one-node circular list fails on the null tail |
| CircularList.Options.constructor | dist/CLList.js:21-23 | options start not circular, with the given list to prepend to |
| CircularList.NewCLList | dist/CLList.js:21-29 | forces `circular` on the options; the result is a circular list of the items, or fails on a null or frozen tail |
| CircularList.FromData | dist/CLList.js:21-29 | a circular list of exactly the data; no data fails on the null tail |
| CircularList.Remove | dist/CLList.js:88-93 | a circular list without the node's data; the last node cannot be removed (null tail); a node not in the list removes nothing |
| CircularList.NextInChain | dist/CLList.js:37-39 | in a circular list the node after position k is at position k + 1, wrapping to 0 |
| CircularList.RemoveAfter | dist/CLList.js:37-39 | removes the data of the node following the given one, wrapping round |
| CircularList.PredecessorOnly | dist/CLList.js:45-48 | in a circular list exactly one node points at a given node: the one at the previous position |
| CircularList.RemoveBefore | dist/CLList.js:44-49 | removes the data of the node preceding the given one, wrapping round; a node not in the list removes nothing |
| CircularList.WovenAt | dist/CLList.js:67-77 | the per-node weave inserts the addition exactly once, just before or just after the target's position |
| CircularList.WovenAbsent | dist/CLList.js:67-77 | when the target is not in the list the weave is the plain data |
| CircularList.Weave | dist/CLList.js:66-78 | builds the woven sequence over the list's nodes |
| CircularList.AddBefore | dist/CLList.js:61-83 | a non-node is an error; a node of the list gets the addition spliced in before it (or after it, with `before` false); a node off the list adds nothing |
| CircularList.AddAfter | dist/CLList.js:54-56 | a non-node is an error; the addition is spliced in right after the node's position; a node off the list adds nothing |

## Left out

- Immutable.js itself is not part of this model. Its `Seq`, `List` and `Map` are modelled as Dafny sequences, and `withMutations` as a loop over a local sequence.
- Comparators: keys are `int` and the tree is ordered by `defaultComp`. `setComparator` (dist/BSTree.js:253-256) and custom comparator options are left out, because a comparator is an arbitrary user function and the ordering proofs need a total order.
- Heap elements are `int` compared by `defaultComparator`. The same applies to custom heap comparators (dist/Heap.js:40-44).
- `forEach` callbacks with side effects are left out. `ForEach` returns the visited nodes, and the tree's `forEach` (dist/BSTree.js:137-139) is its in-order entry sequence.
- `traverseInOrder` (dist/BSTree.js:333-340) is the recursive function `InOrder`, not a separate member.
- `Object.freeze` is modelled only where it matters: writing to a frozen node is the `FrozenNode` failure. Freezing the list object is the immutability of Dafny values.
- `isLList` and `isNode` (dist/LList.js:232-239) are runtime type tests. A `Link` is a node of the list by type, and a `Link` outside the store is the non-node case.
- Node and list arguments to `prepend` and `append` (dist/LList.js:74, 87) are not forms of `ItemOrList`. On a linear list they stand for the node's data (`Item`) or the list's data (`Items`), so callers pass that data instead. In the circular branch of `prepend` (dist/LList.js:70), the source wraps such an object as a single item holding the node or list object itself. The model cannot express that object as an item.
- A node of another list cannot be named: a `Link` indexes its own list's node store. For such a node the model behaves as for one that is not in the list.
- The constructor's `oldSize` option is taken to be the prepended list's size, which is what `prepend` passes.
- LinkedList.NewLList: a `prependTo` list that is circular is excluded by `requires`, because the source's walk over such a list never reaches a null `next`.
- BinaryHeap.NumberOfSifts: `Math.log` floating point is replaced by an exact integer base-2 logarithm, `Log2Floor`.
- BinaryHeap.NewHeap: primitives passed to the constructor (dist/Heap.js:37-44) and the `Error` that `buildHeap` returns for a non-list input are left out. The argument is always a list of integers.
- BinaryHeap.Merge: the merged heap takes `hp`'s kind, as the source does. Its contract does not say more about the order of the storage than heap order.
- BSTree.Insert, BSTree.Remove, BSTree.Get: ordering results are stated for ordered trees (`Ordered(t.root)` / `Valid(t)`), because the library never builds any other kind.
- CircularList.Weave: the source maps the addition list once per matching node; the model maps it once before the loop, which gives the same data.

## Findings

| source | as written | input that shows it | evidently intended | confidence | as-written member | corrected member |
|---|---|---|---|---|---|---|
| dist/Heap.js:154-157 | the loop bound `i < heap.size` re-reads the heap, which shrinks by one on every pop, so the loop stops halfway | a min-heap holding [1, 2]: `heapSort()` returns [1] | return every element, sorted | not executed | BinaryHeap.HeapSort | BinaryHeap.HeapSortAll |
| dist/BSTree.js:395-407 | with no ancestors, `removeNoChildren` returns the leaf itself, so removing the key of a one-node tree gives back the same tree | a tree holding only key 5: `remove(5)` still contains 5 | removing the only node gives the empty tree | not executed | BSTree.Remove | BSTree.RemoveIntended |
