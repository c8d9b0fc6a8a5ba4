/**
 * The binary search tree backing (TreeDoubleEndedPriorityQueue).
 *
 * Each tree node holds a non-empty chain of elements that compare equal,
 * head first; a new duplicate is put at the head of its node's chain.  The
 * tree is unbalanced.  The queue's `size` counts tree NODES, not elements:
 * it grows only when a node is created and shrinks only when a node is
 * spliced out.
 *
 * The tree is a value: an update of a child link or of a chain head in
 * place is modelled by rebuilding the path from the root to that node.
 */
module TreeDepq {
  import opened DepqSpec

  /** A tree node: its left subtree, its chain of equal elements (head
      first) and its right subtree. */
  datatype Tree<T> = Leaf | Node(left: Tree<T>, chain: seq<T>, right: Tree<T>)

  /** The elements stored in `t`: all chain elements of all nodes. */
  ghost function Elements<T>(t: Tree<T>): multiset<T>
  {
    match t
    case Leaf => multiset{}
    case Node(l, c, r) => Elements(l) + multiset(c) + Elements(r)
  }

  /** The number of nodes of `t`. */
  function NodeCount<T>(t: Tree<T>): nat
  {
    match t
    case Leaf => 0
    case Node(l, _, r) => NodeCount(l) + 1 + NodeCount(r)
  }

  /** Every chain of `t` is non-empty, so every node has a chain head. */
  predicate NonEmptyChains<T>(t: Tree<T>)
  {
    match t
    case Leaf => true
    case Node(l, c, r) => c != [] && NonEmptyChains(l) && NonEmptyChains(r)
  }

  /** The search tree invariant: every chain is non-empty and its elements
      share one key, the node key; every key in the left subtree is below
      it and every key in the right subtree above it. */
  ghost predicate Ordered<T>(key: T -> int, t: Tree<T>)
  {
    NonEmptyChains(t) && SearchOrdered(key, t)
  }

  /** The key conditions of `Ordered`. */
  ghost predicate SearchOrdered<T>(key: T -> int, t: Tree<T>)
  {
    match t
    case Leaf => true
    case Node(l, c, r) =>
      && c != []
      && (forall y :: y in c ==> key(y) == key(c[0]))
      && (forall y :: y in Elements(l) ==> key(y) < key(c[0]))
      && (forall y :: y in Elements(r) ==> key(c[0]) < key(y))
      && SearchOrdered(key, l) && SearchOrdered(key, r)
  }

  /** The chain of the node whose key is `k`, found by a search descent,
      or the empty chain when there is no such node. */
  function ChainOf<T>(key: T -> int, t: Tree<T>, k: int): seq<T>
    requires NonEmptyChains(t)
  {
    match t
    case Leaf => []
    case Node(l, c, r) =>
      if k < key(c[0]) then ChainOf(key, l, k)
      else if key(c[0]) < k then ChainOf(key, r, k)
      else c
  }

  /** The private findMin(n): the chain head of the leftmost node, one of
      the stored elements. */
  function MinOf<T>(t: Tree<T>): (m: T)
    requires t.Node? && NonEmptyChains(t)
    ensures m in Elements(t)
  {
    if t.left.Leaf? then t.chain[0] else MinOf(t.left)
  }

  /** The private findMax(n): the chain head of the rightmost node, one of
      the stored elements. */
  function MaxOf<T>(t: Tree<T>): (m: T)
    requires t.Node? && NonEmptyChains(t)
    ensures m in Elements(t)
  {
    if t.right.Leaf? then t.chain[0] else MaxOf(t.right)
  }

  /** The tree after the private add(x, n): a smaller element goes left, a
      larger one right, and an equal one becomes the head of the chain of
      the node it equals; a Leaf becomes a new node with chain `[x]`. */
  ghost function Insert<T>(key: T -> int, t: Tree<T>, x: T): Tree<T>
    requires NonEmptyChains(t)
  {
    match t
    case Leaf => Node(Leaf, [x], Leaf)
    case Node(l, c, r) =>
      if key(c[0]) > key(x) then Node(Insert(key, l, x), c, r)
      else if key(c[0]) < key(x) then Node(l, c, Insert(key, r, x))
      else Node(l, [x] + c, r)
  }

  /** The tree after deleteMin: the leftmost node loses its chain head, or
      is replaced by its right subtree when that head was its only
      element. */
  ghost function RemoveMin<T>(t: Tree<T>): Tree<T>
    requires t.Node?
  {
    if t.left.Leaf? then
      if |t.chain| > 1 then t.(chain := t.chain[1..]) else t.right
    else t.(left := RemoveMin(t.left))
  }

  /** The tree after deleteMax: the rightmost node loses its chain head, or
      is replaced by its left subtree when that head was its only
      element. */
  ghost function RemoveMax<T>(t: Tree<T>): Tree<T>
    requires t.Node?
  {
    if t.right.Leaf? then
      if |t.chain| > 1 then t.(chain := t.chain[1..]) else t.left
    else t.(right := RemoveMax(t.right))
  }

  /** A tree of non-empty chains is empty exactly when it is a Leaf. */
  lemma EmptyIffLeaf<T>(t: Tree<T>)
    requires NonEmptyChains(t)
    ensures Elements(t) == multiset{} <==> t.Leaf?
    ensures NodeCount(t) == 0 <==> t.Leaf?
  {
  }

  /** findMin's descent ends at a minimum of the stored elements. */
  lemma {:induction false} MinOfIsMin<T>(key: T -> int, t: Tree<T>)
    requires t.Node? && Ordered(key, t)
    ensures IsMin(key, Elements(t), MinOf(t))
  {
    if t.left.Node? {
      MinOfIsMin(key, t.left);
    }
  }

  /** findMax's descent ends at a maximum of the stored elements. */
  lemma {:induction false} MaxOfIsMax<T>(key: T -> int, t: Tree<T>)
    requires t.Node? && Ordered(key, t)
    ensures IsMax(key, Elements(t), MaxOf(t))
  {
    if t.right.Node? {
      MaxOfIsMax(key, t.right);
    }
  }

  /** The chain found for key `k` holds exactly the stored elements whose
      key is `k`. */
  lemma {:induction false} ChainOfHoldsKey<T>(key: T -> int, t: Tree<T>, k: int)
    requires Ordered(key, t)
    ensures forall y :: y in ChainOf(key, t, k) ==> y in Elements(t) && key(y) == k
    ensures forall y :: y in Elements(t) && key(y) == k ==> y in ChainOf(key, t, k)
  {
    match t
    case Leaf =>
    case Node(l, c, r) =>
      ChainOfHoldsKey(key, l, k);
      ChainOfHoldsKey(key, r, k);
  }

  /** add stores `x` in addition to everything stored. */
  lemma {:induction false} InsertElements<T>(key: T -> int, t: Tree<T>, x: T)
    requires NonEmptyChains(t)
    ensures Elements(Insert(key, t, x)) == Elements(t) + multiset{x}
  {
    match t
    case Leaf =>
    case Node(l, c, r) =>
      if key(c[0]) > key(x) {
        InsertElements(key, l, x);
      } else if key(c[0]) < key(x) {
        InsertElements(key, r, x);
      }
  }

  /** add keeps the search tree invariant. */
  lemma InsertOrdered<T>(key: T -> int, t: Tree<T>, x: T)
    requires Ordered(key, t)
    ensures Ordered(key, Insert(key, t, x))
  {
    InsertChains(key, t, x, key(x));
    InsertSearchOrdered(key, t, x);
  }

  /** The key conditions part of `InsertOrdered`. */
  lemma {:induction false} InsertSearchOrdered<T>(key: T -> int, t: Tree<T>, x: T)
    requires Ordered(key, t)
    ensures SearchOrdered(key, Insert(key, t, x))
  {
    match t
    case Leaf =>
      assert Insert(key, t, x) == Node(Leaf, [x], Leaf);
    case Node(l, c, r) =>
      if key(c[0]) > key(x) {
        InsertSearchOrdered(key, l, x);
        InsertElements(key, l, x);
        var l' := Insert(key, l, x);
        forall y | y in Elements(l') ensures key(y) < key(c[0]) {
          assert y in Elements(l) || y == x;
        }
        assert Insert(key, t, x) == Node(l', c, r);
      } else if key(c[0]) < key(x) {
        InsertSearchOrdered(key, r, x);
        InsertElements(key, r, x);
        var r' := Insert(key, r, x);
        forall y | y in Elements(r') ensures key(c[0]) < key(y) {
          assert y in Elements(r) || y == x;
        }
        assert Insert(key, t, x) == Node(l, c, r');
      } else {
        var c' := [x] + c;
        assert forall y :: y in c' ==> y == x || y in c;
        assert Insert(key, t, x) == Node(l, c', r);
      }
  }

  /** add puts `x` at the head of the chain of its key, which is the
      singleton `[x]` when the key is new, and leaves every other chain as
      it was. */
  lemma {:induction false} InsertChains<T>(key: T -> int, t: Tree<T>, x: T, k: int)
    requires NonEmptyChains(t)
    ensures NonEmptyChains(Insert(key, t, x))
    ensures ChainOf(key, Insert(key, t, x), k) ==
              if k == key(x) then [x] + ChainOf(key, t, k) else ChainOf(key, t, k)
  {
    match t
    case Leaf =>
    case Node(l, c, r) =>
      if key(c[0]) > key(x) {
        InsertChains(key, l, x, k);
      } else if key(c[0]) < key(x) {
        InsertChains(key, r, x, k);
      }
  }

  /** add creates a node exactly when the key of `x` is new. */
  lemma {:induction false} InsertCount<T>(key: T -> int, t: Tree<T>, x: T)
    requires NonEmptyChains(t)
    ensures NodeCount(Insert(key, t, x)) ==
              NodeCount(t) + (if ChainOf(key, t, key(x)) == [] then 1 else 0)
  {
    match t
    case Leaf =>
    case Node(l, c, r) =>
      if key(c[0]) > key(x) {
        InsertCount(key, l, x);
      } else if key(c[0]) < key(x) {
        InsertCount(key, r, x);
      }
  }

  /** deleteMin removes one occurrence of the element findMin reports and
      nothing else. */
  lemma {:induction false} RemoveMinElements<T>(t: Tree<T>)
    requires t.Node? && NonEmptyChains(t)
    ensures Elements(RemoveMin(t)) + multiset{MinOf(t)} == Elements(t)
  {
    match t
    case Node(Leaf, c, r) =>
      HeadElements(c);
    case Node(l, c, r) =>
      RemoveMinElements(l);
      assert Elements(RemoveMin(t)) == Elements(RemoveMin(l)) + multiset(c) + Elements(r);
  }

  /** deleteMax removes one occurrence of the element findMax reports and
      nothing else. */
  lemma {:induction false} RemoveMaxElements<T>(t: Tree<T>)
    requires t.Node? && NonEmptyChains(t)
    ensures Elements(RemoveMax(t)) + multiset{MaxOf(t)} == Elements(t)
  {
    match t
    case Node(l, c, Leaf) =>
      HeadElements(c);
    case Node(l, c, r) =>
      RemoveMaxElements(r);
      assert Elements(RemoveMax(t)) == Elements(l) + multiset(c) + Elements(RemoveMax(r));
  }

  /** A chain is its head and the rest. */
  lemma HeadElements<T>(c: seq<T>)
    requires c != []
    ensures multiset(c) == multiset{c[0]} + multiset(c[1..])
  {
    assert c == [c[0]] + c[1..];
  }

  /** deleteMin keeps the search tree invariant. */
  lemma {:induction false} RemoveMinOrdered<T>(key: T -> int, t: Tree<T>)
    requires t.Node? && Ordered(key, t)
    ensures Ordered(key, RemoveMin(t))
  {
    var c := t.chain;
    if t.left.Leaf? {
      if |c| > 1 {
        assert forall y :: y in c[1..] ==> y in c;
      }
    } else {
      RemoveMinOrdered(key, t.left);
      RemoveMinElements(t.left);
    }
  }

  /** deleteMax keeps the search tree invariant. */
  lemma {:induction false} RemoveMaxOrdered<T>(key: T -> int, t: Tree<T>)
    requires t.Node? && Ordered(key, t)
    ensures Ordered(key, RemoveMax(t))
  {
    var c := t.chain;
    if t.right.Leaf? {
      if |c| > 1 {
        assert forall y :: y in c[1..] ==> y in c;
      }
    } else {
      RemoveMaxOrdered(key, t.right);
      RemoveMaxElements(t.right);
    }
  }

  /** deleteMin splices a node out exactly when the chain of the minimum's
      key holds only the minimum. */
  lemma {:induction false} RemoveMinCount<T>(key: T -> int, t: Tree<T>)
    requires t.Node? && Ordered(key, t)
    ensures NodeCount(RemoveMin(t)) ==
              NodeCount(t) - (if |ChainOf(key, t, key(MinOf(t)))| > 1 then 0 else 1)
  {
    if t.left.Node? {
      RemoveMinCount(key, t.left);
    }
  }

  /** deleteMax splices a node out exactly when the chain of the maximum's
      key holds only the maximum. */
  lemma {:induction false} RemoveMaxCount<T>(key: T -> int, t: Tree<T>)
    requires t.Node? && Ordered(key, t)
    ensures NodeCount(RemoveMax(t)) ==
              NodeCount(t) - (if |ChainOf(key, t, key(MaxOf(t)))| > 1 then 0 else 1)
  {
    if t.right.Node? {
      RemoveMaxCount(key, t.right);
    }
  }

  /** No chain is found for a key no stored element has. */
  lemma ChainOfMissing<T>(key: T -> int, t: Tree<T>, k: int)
    requires Ordered(key, t)
    requires forall y :: y in Elements(t) ==> key(y) != k
    ensures ChainOf(key, t, k) == []
  {
    ChainOfHoldsKey(key, t, k);
    if ChainOf(key, t, k) != [] {
      assert ChainOf(key, t, k)[0] in ChainOf(key, t, k);
    }
  }

  /** deleteMin takes the minimum off the head of the chain of its key, and
      leaves every other chain as it was. */
  lemma {:induction false} RemoveMinChains<T>(key: T -> int, t: Tree<T>, k: int)
    requires t.Node? && Ordered(key, t)
    ensures NonEmptyChains(RemoveMin(t))
    ensures k == key(MinOf(t)) ==> ChainOf(key, t, k) == [MinOf(t)] + ChainOf(key, RemoveMin(t), k)
    ensures k != key(MinOf(t)) ==> ChainOf(key, t, k) == ChainOf(key, RemoveMin(t), k)
  {
    match t
    case Node(Leaf, c, r) =>
      LeftmostChains(key, t, k);
    case Node(l, c, r) =>
      var m := MinOf(l);
      assert MinOf(t) == m;
      RemoveMinChains(key, l, k);
      var t' := Node(RemoveMin(l), c, r);
      assert RemoveMin(t) == t';
      assert key(m) < key(c[0]);
      if k < key(c[0]) {
        assert ChainOf(key, t, k) == ChainOf(key, l, k);
        assert ChainOf(key, t', k) == ChainOf(key, RemoveMin(l), k);
      } else if key(c[0]) < k {
        assert ChainOf(key, t, k) == ChainOf(key, r, k) == ChainOf(key, t', k);
      } else {
        assert ChainOf(key, t, k) == c == ChainOf(key, t', k);
      }
  }

  /** The base case of `RemoveMinChains`: the root is the leftmost node. */
  lemma LeftmostChains<T>(key: T -> int, t: Tree<T>, k: int)
    requires t.Node? && t.left.Leaf? && Ordered(key, t)
    ensures NonEmptyChains(RemoveMin(t))
    ensures k == key(t.chain[0]) ==>
              ChainOf(key, t, k) == [t.chain[0]] + ChainOf(key, RemoveMin(t), k)
    ensures k != key(t.chain[0]) ==> ChainOf(key, t, k) == ChainOf(key, RemoveMin(t), k)
  {
    var c, r := t.chain, t.right;
    if |c| > 1 {
      assert c[1] in c;
      assert RemoveMin(t) == Node(Leaf, c[1..], r);
      assert c == [c[0]] + c[1..];
    } else if k <= key(c[0]) {
      ChainOfMissing(key, r, k);
      assert c == [c[0]];
    }
  }

  /** deleteMax takes the maximum off the head of the chain of its key, and
      leaves every other chain as it was. */
  lemma {:induction false} RemoveMaxChains<T>(key: T -> int, t: Tree<T>, k: int)
    requires t.Node? && Ordered(key, t)
    ensures NonEmptyChains(RemoveMax(t))
    ensures k == key(MaxOf(t)) ==> ChainOf(key, t, k) == [MaxOf(t)] + ChainOf(key, RemoveMax(t), k)
    ensures k != key(MaxOf(t)) ==> ChainOf(key, t, k) == ChainOf(key, RemoveMax(t), k)
  {
    match t
    case Node(l, c, Leaf) =>
      RightmostChains(key, t, k);
    case Node(l, c, r) =>
      var m := MaxOf(r);
      assert MaxOf(t) == m;
      RemoveMaxChains(key, r, k);
      var t' := Node(l, c, RemoveMax(r));
      assert RemoveMax(t) == t';
      assert key(c[0]) < key(m);
      if key(c[0]) < k {
        assert ChainOf(key, t, k) == ChainOf(key, r, k);
        assert ChainOf(key, t', k) == ChainOf(key, RemoveMax(r), k);
      } else if k < key(c[0]) {
        assert ChainOf(key, t, k) == ChainOf(key, l, k) == ChainOf(key, t', k);
      } else {
        assert ChainOf(key, t, k) == c == ChainOf(key, t', k);
      }
  }

  /** The base case of `RemoveMaxChains`: the root is the rightmost node. */
  lemma RightmostChains<T>(key: T -> int, t: Tree<T>, k: int)
    requires t.Node? && t.right.Leaf? && Ordered(key, t)
    ensures NonEmptyChains(RemoveMax(t))
    ensures k == key(t.chain[0]) ==>
              ChainOf(key, t, k) == [t.chain[0]] + ChainOf(key, RemoveMax(t), k)
    ensures k != key(t.chain[0]) ==> ChainOf(key, t, k) == ChainOf(key, RemoveMax(t), k)
  {
    var l, c := t.left, t.chain;
    if |c| > 1 {
      assert c[1] in c;
      assert RemoveMax(t) == Node(l, c[1..], Leaf);
      assert c == [c[0]] + c[1..];
    } else if key(c[0]) <= k {
      ChainOfMissing(key, l, k);
      assert c == [c[0]];
    }
  }

  class TreeQueue<T> {
    /** The fixed order of the queue, standing for its comparator. */
    const key: T -> int
    var root: Tree<T>
    /** The number of tree nodes. */
    var size: int

    /** The object invariant: a search tree whose node count is `size`. */
    ghost predicate Valid()
      reads this
    {
      Ordered(key, root) && size == NodeCount(root)
    }

    constructor (key: T -> int)
      ensures Valid() && Elements(root) == multiset{} && this.key == key
    {
      this.key := key;
      new;
      MakeEmpty();
    }

    method MakeEmpty()
      modifies this
      ensures Valid() && root == Leaf && size == 0
    {
      root := Leaf;
      size := 0;
    }

    predicate IsEmpty()
      reads this
      requires Valid()
      ensures IsEmpty() <==> root.Leaf?
      ensures IsEmpty() <==> Elements(root) == multiset{}
    {
      EmptyIffLeaf(root);
      size == 0
    }

    method Add(x: T)
      requires Valid()
      modifies this
      ensures Valid()
      ensures Elements(root) == Elements(old(root)) + multiset{x}
      ensures root == Insert(key, old(root), x)
      ensures size == old(size) + (if ChainOf(key, old(root), key(x)) == [] then 1 else 0)
    {
      var r := AddAt(x, root);
      InsertElements(key, root, x);
      InsertOrdered(key, root, x);
      InsertCount(key, root, x);
      root := r;
    }

    /** The private add(x, n): returns the subtree that replaces `n`,
        counting a node when it creates one. */
    method AddAt(x: T, n: Tree<T>) returns (r: Tree<T>)
      requires Ordered(key, n)
      modifies this`size
      ensures r == Insert(key, n, x)
      ensures size == old(size) + NodeCount(r) - NodeCount(n)
      decreases n
    {
      InsertCount(key, n, x);
      if n.Leaf? {
        size := size + 1;
        return Node(Leaf, [x], Leaf);
      }
      if key(n.chain[0]) > key(x) {
        var l := AddAt(x, n.left);
        r := n.(left := l);
      } else if key(n.chain[0]) < key(x) {
        var rt := AddAt(x, n.right);
        r := n.(right := rt);
      } else {
        r := n.(chain := [x] + n.chain);
      }
    }

    method DeleteMin() returns (r: Result<T>)
      requires Valid()
      modifies this
      ensures Valid()
      ensures r.Underflow? <==> Elements(old(root)) == multiset{}
      ensures r.Underflow? ==> unchanged(this)
      ensures r.Ok? ==> old(root).Node? && r.value == MinOf(old(root))
      ensures r.Ok? ==> IsMin(key, Elements(old(root)), r.value)
      ensures r.Ok? ==> Elements(root) + multiset{r.value} == Elements(old(root))
      ensures r.Ok? ==> root == RemoveMin(old(root))
      ensures r.Ok? ==>
                size == old(size) - (if |ChainOf(key, old(root), key(r.value))| > 1 then 0 else 1)
    {
      if IsEmpty() {
        return Underflow;
      }
      ghost var t0 := root;
      var rem;
      if root.left.Leaf? {
        rem := root.chain[0];
        if |root.chain| > 1 {
          root := root.(chain := root.chain[1..]);
        } else {
          root := root.right;
          size := size - 1;
        }
      } else {
        var t;
        rem, t := DeleteMinBelow(root);
        root := t;
      }
      MinOfIsMin(key, t0);
      RemoveMinElements(t0);
      RemoveMinOrdered(key, t0);
      RemoveMinCount(key, t0);
      assert root == RemoveMin(t0) && rem == MinOf(t0);
      return Ok(rem);
    }

    /** The private deleteMin(n) for a node with a left child: looks one
        level ahead for the leftmost node and returns its chain head and
        the subtree that replaces `n`. */
    method DeleteMinBelow(n: Tree<T>) returns (rem: T, r: Tree<T>)
      requires n.Node? && n.left.Node? && Ordered(key, n)
      modifies this`size
      ensures rem == MinOf(n) && r == RemoveMin(n)
      ensures size == old(size) + NodeCount(r) - NodeCount(n)
      decreases n
    {
      RemoveMinCount(key, n.left);
      if n.left.left.Leaf? {
        rem := n.left.chain[0];
        if |n.left.chain| > 1 {
          r := n.(left := n.left.(chain := n.left.chain[1..]));
        } else {
          r := n.(left := n.left.right);
          size := size - 1;
        }
      } else {
        var l;
        rem, l := DeleteMinBelow(n.left);
        r := n.(left := l);
      }
    }

    method DeleteMax() returns (r: Result<T>)
      requires Valid()
      modifies this
      ensures Valid()
      ensures r.Underflow? <==> Elements(old(root)) == multiset{}
      ensures r.Underflow? ==> unchanged(this)
      ensures r.Ok? ==> old(root).Node? && r.value == MaxOf(old(root))
      ensures r.Ok? ==> IsMax(key, Elements(old(root)), r.value)
      ensures r.Ok? ==> Elements(root) + multiset{r.value} == Elements(old(root))
      ensures r.Ok? ==> root == RemoveMax(old(root))
      ensures r.Ok? ==>
                size == old(size) - (if |ChainOf(key, old(root), key(r.value))| > 1 then 0 else 1)
    {
      if IsEmpty() {
        return Underflow;
      }
      ghost var t0 := root;
      var rem;
      if root.right.Leaf? {
        rem := root.chain[0];
        if |root.chain| > 1 {
          root := root.(chain := root.chain[1..]);
        } else {
          root := root.left;
          size := size - 1;
        }
      } else {
        var t;
        rem, t := DeleteMaxBelow(root);
        root := t;
      }
      MaxOfIsMax(key, t0);
      RemoveMaxElements(t0);
      RemoveMaxOrdered(key, t0);
      RemoveMaxCount(key, t0);
      assert root == RemoveMax(t0) && rem == MaxOf(t0);
      return Ok(rem);
    }

    /** The private deleteMax(n) for a node with a right child: looks one
        level ahead for the rightmost node and returns its chain head and
        the subtree that replaces `n`. */
    method DeleteMaxBelow(n: Tree<T>) returns (rem: T, r: Tree<T>)
      requires n.Node? && n.right.Node? && Ordered(key, n)
      modifies this`size
      ensures rem == MaxOf(n) && r == RemoveMax(n)
      ensures size == old(size) + NodeCount(r) - NodeCount(n)
      decreases n
    {
      RemoveMaxCount(key, n.right);
      if n.right.right.Leaf? {
        rem := n.right.chain[0];
        if |n.right.chain| > 1 {
          r := n.(right := n.right.(chain := n.right.chain[1..]));
        } else {
          r := n.(right := n.right.left);
          size := size - 1;
        }
      } else {
        var rt;
        rem, rt := DeleteMaxBelow(n.right);
        r := n.(right := rt);
      }
    }

    method FindMin() returns (r: Result<T>)
      requires Valid()
      ensures r.Underflow? <==> Elements(root) == multiset{}
      ensures r.Ok? ==> root.Node? && r.value == MinOf(root)
      ensures r.Ok? ==> IsMin(key, Elements(root), r.value)
    {
      if IsEmpty() {
        return Underflow;
      }
      MinOfIsMin(key, root);
      return Ok(MinOf(root));
    }

    method FindMax() returns (r: Result<T>)
      requires Valid()
      ensures r.Underflow? <==> Elements(root) == multiset{}
      ensures r.Ok? ==> root.Node? && r.value == MaxOf(root)
      ensures r.Ok? ==> IsMax(key, Elements(root), r.value)
    {
      EmptyIffLeaf(root);
      if root.Leaf? {
        return Underflow;
      }
      MaxOfIsMax(key, root);
      return Ok(MaxOf(root));
    }
  }
}
