# Double-ended priority queues: a verified model

This project models the two backings of a generic double-ended priority
queue (DEPQ). The operations are `makeEmpty`, `add`, `findMin`, `findMax`,
`deleteMin`, `deleteMax` and `isEmpty`.

- `ListDoubleEndedPriorityQueue` keeps its elements in a sorted
  doubly-linked list with `first`, `last` and `size` fields.
- `TreeDoubleEndedPriorityQueue` keeps them in an unbalanced binary search
  tree. Each node holds a chain of elements that compare equal, and a new
  duplicate goes to the head of its node's chain.

## How the model reads

- **Order.** Both queues compare elements with `myCompare`. The model fixes
  the order as a key projection `key: T -> int`. `myCompare(a, b)` is
  negative, zero or positive exactly when `key(a)` is below, equal to or
  above `key(b)`. Distinct elements may share a key, so where an equal
  element lands can be observed. An integer key covers only orders that
  embed in the integers; the natural order of `String`, for one, has no
  such key. The proofs use only ordering facts about `key` (reflexivity,
  transitivity and totality of `<=` on keys), so nothing in them depends on
  that restriction.
- **Underflow.** The `UnderflowException` of an empty queue is the
  `Underflow` value of `DepqSpec.Result`. The state is unchanged when it is
  returned.
- **List (`ListDepq`).** `ListDepq.ListQueue` is a class with the source's
  `first`, `last` and `size` fields.
  - Its nodes live in a pool, `pool: seq<Cell>`. A node is a pool index, and
    `Nil` (-1) stands for `null`. A `Cell` holds `data`, `previous` and
    `next` as in the source's `Node`.
  - `new Node(...)` appends a cell to the pool. Setting a link rewrites one
    cell.
  - The ghost sequences `nodes` and `Contents` list the chained nodes and
    their elements front to back.
  - `Valid()` says three things:
    - the links form exactly that chain, in both directions;
    - `first`/`last` are its ends, both `Nil` exactly when it is empty;
    - `size` is its length, and `Contents` is sorted.
  - `add` is proved against the function `Placed`, and the removals against
    slices of `Contents`.
- **Tree (`TreeDepq`).** `TreeDepq.TreeQueue` is a class with the source's
  `root` and `size` fields.
  - The tree is the value datatype `Tree = Leaf | Node(left, chain, right)`.
    The source's singly linked `ListNode` chain is the sequence `chain`,
    with the head first.
  - The source updates a child link or a chain head in place. The model
    rebuilds the path from the root to that node instead.
  - The recursive private `add(x, n)`, `deleteMin(n)` and `deleteMax(n)` are
    recursive methods. They update `size` as the source does and are proved
    against the functions `Insert`, `RemoveMin` and `RemoveMax`.
  - The read-only descents `findMin(n)` and `findMax(n)` are the functions
    `MinOf` and `MaxOf`.
- **Tree `size` counts nodes.** It grows only when `add` creates a node and
  shrinks only when a deletion splices a node out. The model follows the
  code.
  - The field comment calls `size` the height of the tree. That is not what
    the code does.
  - The only reader of `size` is `isEmpty`. The model proves that `size`
    is 0 exactly when the tree stores no element, so `isEmpty` is still
    right.

## Model

| member | source | states |
|---|---|---|
| DepqSpec.SortedFrontIsMin | src/cop3530/ListDoubleEndedPriorityQueue.java:251-260 | the front of a sorted sequence is stored and no stored element has a smaller key, so returning `first.data` returns a minimum |
| DepqSpec.SortedBackIsMax | src/cop3530/ListDoubleEndedPriorityQueue.java:268-276 | the back of a sorted sequence is stored and no stored element has a larger key, so returning `last.data` returns a maximum |
| ListDepq.FirstGreater | src/cop3530/ListDoubleEndedPriorityQueue.java:166-175 | the index where add's scan stops: every element before it has a key at most that of `x`, and the element at it, if any, has a strictly larger key |
| ListDepq.MiddleScanFinds | src/cop3530/ListDoubleEndedPriorityQueue.java:157-175 | when `x` is below the back, the scan stops inside the list, so the splice always happens |
| ListDepq.InsertAtSorted | src/cop3530/ListDoubleEndedPriorityQueue.java:171 | splicing `x` between neighbours whose keys bound its key keeps the sequence sorted |
| ListDepq.PlacedSorted | src/cop3530/ListDoubleEndedPriorityQueue.java:125-178 | add's placement (front if at most the front, else back if at least the back, else before the first strictly greater) keeps the list sorted |
| ListDepq.PlacedElements | src/cop3530/ListDoubleEndedPriorityQueue.java:125-178 | add's placement stores exactly one more element, `x`, drops none, and the length grows by one |
| ListDepq.Placed | src/cop3530/ListDoubleEndedPriorityQueue.java:125-178 | the contents after add: `[x]` on an empty list; `x` in front when the front's key is at least its key (also the `size == 1` case); otherwise at the back when the back's key is at most its key; otherwise just before the first element with a strictly greater key |
| ListDepq.ChainedPrepend | src/cop3530/ListDoubleEndedPriorityQueue.java:99-104 | a new front node linked to the old front, with the old front's `previous` pointed back at it, is a valid chain of `[x] + contents` |
| ListDepq.ChainedAppend | src/cop3530/ListDoubleEndedPriorityQueue.java:112-117 | a new back node linked to the old back, with the old back's `next` pointed at it, is a valid chain of `contents + [x]` |
| ListDepq.ChainedSplice | src/cop3530/ListDoubleEndedPriorityQueue.java:171 | a new node between positions k-1 and k, with both neighbours relinked to it, is a valid chain with `x` at position k |
| ListDepq.ChainedDropFront | src/cop3530/ListDoubleEndedPriorityQueue.java:206-207 | moving `first` to the second node and clearing its `previous` leaves a valid chain of the contents without the front |
| ListDepq.ChainedDropBack | src/cop3530/ListDoubleEndedPriorityQueue.java:239-240 | moving `last` to the second-to-last node and clearing its `next` leaves a valid chain of the contents without the back |
| ListDepq.ListQueue.NewNode | src/cop3530/ListDoubleEndedPriorityQueue.java:36-41 | `new Node(d, p, n)`: a fresh node, numbered by the pool's old length, holding `d` with neighbours `p` and `n`; no other field changes |
| ListDepq.ListQueue.constructor | src/cop3530/ListDoubleEndedPriorityQueue.java:47-61 | a new queue is valid and empty, and uses the given order |
| ListDepq.ListQueue.MakeEmpty | src/cop3530/ListDoubleEndedPriorityQueue.java:86-91 | both ends become null and `size` 0, giving the valid empty list |
| ListDepq.ListQueue.IsEmpty | src/cop3530/ListDoubleEndedPriorityQueue.java:284-287 | `size == 0` holds exactly when the contents are empty, and exactly when both ends are null |
| ListDepq.ListQueue.AddFront | src/cop3530/ListDoubleEndedPriorityQueue.java:99-104 | on a non-empty list whose front is not below `x`, the list stays valid and sorted and its contents become `[x] + old` |
| ListDepq.ListQueue.AddEnd | src/cop3530/ListDoubleEndedPriorityQueue.java:112-117 | on a non-empty list whose back is not above `x`, the list stays valid and sorted and its contents become `old + [x]` |
| ListDepq.ListQueue.LinkBefore | src/cop3530/ListDoubleEndedPriorityQueue.java:171-172 | splicing a new node for `x` just before the node at position k keeps the list valid, puts `x` at position k and adds one to `size` |
| ListDepq.ListQueue.Add | src/cop3530/ListDoubleEndedPriorityQueue.java:125-178 | the list stays valid and sorted, its contents become `Placed(old, x)` (the old elements plus exactly `x`), and `size` grows by exactly one |
| ListDepq.ListQueue.AddInside | src/cop3530/ListDoubleEndedPriorityQueue.java:163-176 | the scan from `first.next` finds the first strictly greater element and splices `x` in before it, keeping the list valid |
| ListDepq.ListQueue.DeleteMin | src/cop3530/ListDoubleEndedPriorityQueue.java:186-211 | Underflow exactly on the empty list, with nothing changed; otherwise it returns the front, which is a minimum, and leaves the rest in order with `size` one smaller |
| ListDepq.ListQueue.DeleteMax | src/cop3530/ListDoubleEndedPriorityQueue.java:219-243 | Underflow exactly on the empty list, with nothing changed; otherwise it returns the back, which is a maximum, and leaves the rest in order with `size` one smaller |
| ListDepq.ListQueue.FindMin | src/cop3530/ListDoubleEndedPriorityQueue.java:251-260 | Underflow exactly on the empty list; otherwise the front element, a minimum; nothing changes |
| ListDepq.ListQueue.FindMax | src/cop3530/ListDoubleEndedPriorityQueue.java:268-276 | Underflow exactly on the empty list; otherwise the back element, a maximum; nothing changes |
| TreeDepq.Elements | src/cop3530/TreeDoubleEndedPriorityQueue.java:44-99 | the abstract view of a tree: the multiset of the elements of all chains of all nodes |
| TreeDepq.NodeCount | src/cop3530/TreeDoubleEndedPriorityQueue.java:152 | the number of nodes of a tree, the quantity `size` tracks: one per `new Node` and minus one per spliced node |
| TreeDepq.ChainOf | src/cop3530/TreeDoubleEndedPriorityQueue.java:157-171 | add's search descent for a key: go left when the node's chain head has a larger key, right when it has a smaller one, and stop at the node whose key is equal; the empty chain at null |
| TreeDepq.Insert | src/cop3530/TreeDoubleEndedPriorityQueue.java:147-174 | the tree after `add(x, n)`: a null subtree becomes a node with the chain `[x]`; a larger node key sends `x` left, a smaller one right; an equal one puts `x` at the head of that node's chain |
| TreeDepq.RemoveMin | src/cop3530/TreeDoubleEndedPriorityQueue.java:182-250 | the tree after deleteMin: the leftmost node loses its chain head, or is replaced by its right subtree when the head was its only element; the path above it is unchanged |
| TreeDepq.RemoveMax | src/cop3530/TreeDoubleEndedPriorityQueue.java:258-324 | the tree after deleteMax: the rightmost node loses its chain head, or is replaced by its left subtree when the head was its only element; the path above it is unchanged |
| TreeDepq.MinOf | src/cop3530/TreeDoubleEndedPriorityQueue.java:347-355 | the leftmost node's chain head is a stored element |
| TreeDepq.MaxOf | src/cop3530/TreeDoubleEndedPriorityQueue.java:379-387 | the rightmost node's chain head is a stored element |
| TreeDepq.EmptyIffLeaf | src/cop3530/TreeDoubleEndedPriorityQueue.java:395-398 | a tree of non-empty chains stores no element exactly when it is null, and exactly when it has no nodes |
| TreeDepq.MinOfIsMin | src/cop3530/TreeDoubleEndedPriorityQueue.java:332-355 | in a search tree, findMin's descent returns an element no stored element is below |
| TreeDepq.MaxOfIsMax | src/cop3530/TreeDoubleEndedPriorityQueue.java:363-387 | in a search tree, findMax's descent returns an element no stored element is above |
| TreeDepq.ChainOfHoldsKey | src/cop3530/TreeDoubleEndedPriorityQueue.java:157-171 | the chain that a search for key k reaches holds exactly the stored elements whose key is k, in both directions |
| TreeDepq.ChainOfMissing | src/cop3530/TreeDoubleEndedPriorityQueue.java:150-154 | a search for a key that no stored element has reaches null |
| TreeDepq.InsertElements | src/cop3530/TreeDoubleEndedPriorityQueue.java:147-174 | add stores exactly one more element, `x`, and drops none |
| TreeDepq.InsertOrdered | src/cop3530/TreeDoubleEndedPriorityQueue.java:147-174 | add keeps the invariant: chains non-empty and of one key, left keys below and right keys above each node |
| TreeDepq.InsertSearchOrdered | src/cop3530/TreeDoubleEndedPriorityQueue.java:157-171 | add keeps the key ordering, going left on a smaller key, right on a larger one and prepending on an equal one |
| TreeDepq.InsertChains | src/cop3530/TreeDoubleEndedPriorityQueue.java:150-171 | after add the chain of x's key is x followed by the old chain, so it is `[x]` for a new key; every other chain is unchanged |
| TreeDepq.InsertCount | src/cop3530/TreeDoubleEndedPriorityQueue.java:150-171 | add creates one node exactly when no node had x's key, and none for a duplicate |
| TreeDepq.RemoveMinElements | src/cop3530/TreeDoubleEndedPriorityQueue.java:182-250 | deleteMin removes exactly one occurrence of the element findMin reports, and nothing else |
| TreeDepq.RemoveMaxElements | src/cop3530/TreeDoubleEndedPriorityQueue.java:258-324 | deleteMax removes exactly one occurrence of the element findMax reports, and nothing else |
| TreeDepq.RemoveMinOrdered | src/cop3530/TreeDoubleEndedPriorityQueue.java:191-249 | deleteMin keeps the search tree invariant |
| TreeDepq.RemoveMaxOrdered | src/cop3530/TreeDoubleEndedPriorityQueue.java:267-323 | deleteMax keeps the search tree invariant |
| TreeDepq.RemoveMinCount | src/cop3530/TreeDoubleEndedPriorityQueue.java:197-208 | deleteMin removes a node exactly when the minimum is alone in its chain, and otherwise only drops the chain head |
| TreeDepq.RemoveMaxCount | src/cop3530/TreeDoubleEndedPriorityQueue.java:273-283 | deleteMax removes a node exactly when the maximum is alone in its chain, and otherwise only drops the chain head |
| TreeDepq.RemoveMinChains | src/cop3530/TreeDoubleEndedPriorityQueue.java:223-250 | deleteMin takes the minimum off the head of its key's chain and leaves every other chain unchanged |
| TreeDepq.LeftmostChains | src/cop3530/TreeDoubleEndedPriorityQueue.java:197-208 | at the leftmost node, the chain loses its head, or the node gives way to its right subtree when the head was alone |
| TreeDepq.RemoveMaxChains | src/cop3530/TreeDoubleEndedPriorityQueue.java:297-324 | deleteMax takes the maximum off the head of its key's chain and leaves every other chain unchanged |
| TreeDepq.RightmostChains | src/cop3530/TreeDoubleEndedPriorityQueue.java:273-283 | at the rightmost node, the chain loses its head, or the node gives way to its left subtree when the head was alone |
| TreeDepq.TreeQueue.constructor | src/cop3530/TreeDoubleEndedPriorityQueue.java:22-37 | a new queue is valid and stores nothing, and uses the given order |
| TreeDepq.TreeQueue.MakeEmpty | src/cop3530/TreeDoubleEndedPriorityQueue.java:123-127 | the root becomes null and `size` 0, giving the valid empty tree |
| TreeDepq.TreeQueue.IsEmpty | src/cop3530/TreeDoubleEndedPriorityQueue.java:395-398 | `size == 0` holds exactly when the root is null, and exactly when nothing is stored |
| TreeDepq.TreeQueue.Add | src/cop3530/TreeDoubleEndedPriorityQueue.java:135-138 | the tree stays valid, stores `x` in addition to the old elements, and `size` grows by one exactly when x's key had no node |
| TreeDepq.TreeQueue.AddAt | src/cop3530/TreeDoubleEndedPriorityQueue.java:147-174 | returns the subtree after inserting `x`, and adds one to `size` exactly for the node it creates |
| TreeDepq.TreeQueue.DeleteMin | src/cop3530/TreeDoubleEndedPriorityQueue.java:182-214 | Underflow exactly when empty, with nothing changed; otherwise it returns findMin's element, a minimum, removes exactly that one occurrence, and shrinks `size` exactly when the node is spliced out |
| TreeDepq.TreeQueue.DeleteMinBelow | src/cop3530/TreeDoubleEndedPriorityQueue.java:223-250 | for a node with a left child, the one-level lookahead returns the leftmost chain head and rebuilds the subtree without it, with `size` adjusted for a spliced node |
| TreeDepq.TreeQueue.DeleteMax | src/cop3530/TreeDoubleEndedPriorityQueue.java:258-289 | Underflow exactly when empty, with nothing changed; otherwise it returns findMax's element, a maximum, removes exactly that one occurrence, and shrinks `size` exactly when the node is spliced out |
| TreeDepq.TreeQueue.DeleteMaxBelow | src/cop3530/TreeDoubleEndedPriorityQueue.java:297-324 | for a node with a right child, the one-level lookahead returns the rightmost chain head and rebuilds the subtree without it, with `size` adjusted for a spliced node |
| TreeDepq.TreeQueue.FindMin | src/cop3530/TreeDoubleEndedPriorityQueue.java:332-339 | Underflow exactly when empty (the source asks `isEmpty`); otherwise the leftmost chain head, a minimum; nothing changes |
| TreeDepq.TreeQueue.FindMax | src/cop3530/TreeDoubleEndedPriorityQueue.java:363-371 | Underflow exactly when empty (the source asks `root == null`); otherwise the rightmost chain head, a maximum; nothing changes |

## Left out

- `toString` of both queues and of the tree's chain nodes: it only renders
  debug text.
- `myCompare`, the comparator taken by the constructors, and the cast to
  `Comparable` are replaced by a fixed key projection. A comparator that is
  not a total order, and the `ClassCastException` for unorderable
  elements, are not modelled.
- `size` is an unbounded integer. The wrap-around of Java's 32-bit `int`
  after 2^31 insertions is not modelled.
- ListDepq.ListQueue: nodes are pool indices, not heap objects. A node
  dropped from the chain stays in the pool unreachable, where the Java
  garbage collector would reclaim it. The dropped node's own stale link is
  not modelled as observable, because nothing can reach it.
- TreeDepq.TreeQueue: child links and chain heads changed in place are
  modelled by rebuilding the path from the root. No node is shared in the
  source, so no aliasing is lost.
- TreeDepq.TreeQueue.AddAt: the source's third test `myCompare(...) == 0`
  is modelled as the final `else`. Under a total order it always holds
  when the first two fail. The list's `size == 1` branch keeps both of its
  tests as written, with the second one also always true when reached.
- ListDepq.ListQueue.AddFront and ListDepq.ListQueue.AddEnd require a
  non-empty list. The private source methods dereference `first.next` and
  `last.previous` and are called only on non-empty lists.
- Performance (linear scans, an unbalanced tree) is not a functional
  property and is not modelled.
