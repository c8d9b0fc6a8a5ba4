/**
 * The sorted doubly-linked list backing (ListDoubleEndedPriorityQueue).
 *
 * The nodes live in a pool addressed by number: node `n` is the cell
 * `pool[n]`, holding its element and the numbers of its two neighbours,
 * with `Nil` for a null link.  A new node is appended to the pool; a node
 * dropped from the chain stays in the pool unreachable.  The ghost
 * sequence `nodes` lists the chained nodes front to back and `Contents`
 * their data; `Valid()` ties both to the links and says the data is
 * sorted.
 */
module ListDepq {
  import opened DepqSpec

  /** The null link. */
  const Nil := -1

  /** A list node: its element and its two neighbours. */
  datatype Cell<T> = Cell(data: T, previous: int, next: int)

  /** The index of the first element of `s` whose key is strictly greater
      than the key of `x`, or `|s|` when there is none. */
  function FirstGreater<T>(key: T -> int, s: seq<T>, x: T): (k: nat)
    ensures k <= |s|
    ensures forall j :: 0 <= j < k ==> key(s[j]) <= key(x)
    ensures k < |s| ==> key(x) < key(s[k])
  {
    if s == [] then 0
    else if key(x) < key(s[0]) then 0
    else 1 + FirstGreater(key, s[1..], x)
  }

  /** The contents after add(x) on contents `s`: in front when the key of
      `x` is at most the front's, otherwise at the back when it is at least
      the back's, otherwise just before the first strictly greater element. */
  function Placed<T>(key: T -> int, s: seq<T>, x: T): seq<T>
  {
    if s == [] then [x]
    else if key(s[0]) >= key(x) then [x] + s
    else if key(s[|s| - 1]) <= key(x) then s + [x]
    else
      var k := FirstGreater(key, s, x);
      s[..k] + [x] + s[k..]
  }

  /** In the middle case the scan cannot run off the end: an element whose
      key is below the back's always meets a strictly greater element. */
  lemma MiddleScanFinds<T>(key: T -> int, s: seq<T>, x: T)
    requires s != [] && key(x) < key(s[|s| - 1])
    ensures FirstGreater(key, s, x) < |s|
  {
  }

  /** Putting `x` at index `i` of sorted `s`, between neighbours whose keys
      bound its key, keeps `s` sorted. */
  lemma InsertAtSorted<T>(key: T -> int, s: seq<T>, i: nat, x: T)
    requires Sorted(key, s) && i <= |s|
    requires forall j :: 0 <= j < i ==> key(s[j]) <= key(x)
    requires forall j :: i <= j < |s| ==> key(x) <= key(s[j])
    ensures Sorted(key, s[..i] + [x] + s[i..])
  {
  }

  /** add keeps the list sorted. */
  lemma PlacedSorted<T>(key: T -> int, s: seq<T>, x: T)
    requires Sorted(key, s)
    ensures Sorted(key, Placed(key, s, x))
  {
  }

  /** add stores exactly one more element, `x`, and drops none. */
  lemma PlacedElements<T>(key: T -> int, s: seq<T>, x: T)
    ensures multiset(Placed(key, s, x)) == multiset(s) + multiset{x}
    ensures |Placed(key, s, x)| == |s| + 1
  {
    if s != [] && key(s[0]) < key(x) && key(x) < key(s[|s| - 1]) {
      var k := FirstGreater(key, s, x);
      assert s == s[..k] + s[k..];
    }
  }

  /** The pool with the `previous` link of node `m` set to `p`. */
  function WithPrevious<T>(pool: seq<Cell<T>>, m: int, p: int): seq<Cell<T>>
  {
    if 0 <= m < |pool| then pool[m := pool[m].(previous := p)] else pool
  }

  /** The pool with the `next` link of node `m` set to `n`. */
  function WithNext<T>(pool: seq<Cell<T>>, m: int, n: int): seq<Cell<T>>
  {
    if 0 <= m < |pool| then pool[m := pool[m].(next := n)] else pool
  }

  /** The nodes `ns` are pairwise distinct. */
  ghost predicate Distinct(ns: seq<int>)
  {
    forall i, j :: 0 <= i < j < |ns| ==> ns[i] != ns[j]
  }

  /** The node at position `i` of `ns` is a pool node holding `cs[i]`
      whose `previous` and `next` links are the nodes at positions `i - 1`
      and `i + 1`, or `Nil` at either end. */
  ghost predicate Joined<T>(pool: seq<Cell<T>>, ns: seq<int>, cs: seq<T>, i: int)
  {
    && 0 <= i < |ns| && i < |cs| && 0 <= ns[i] < |pool|
    && pool[ns[i]].data == cs[i]
    && pool[ns[i]].previous == (if i == 0 then Nil else ns[i - 1])
    && pool[ns[i]].next == (if i == |ns| - 1 then Nil else ns[i + 1])
  }

  /** The pool nodes `ns` form a doubly-linked chain holding `cs` front to
      back. */
  ghost predicate Chained<T>(pool: seq<Cell<T>>, ns: seq<int>, cs: seq<T>)
  {
    && |ns| == |cs|
    && Distinct(ns)
    && forall i :: 0 <= i < |ns| ==> Joined(pool, ns, cs, i)
  }

  /** addFront: a new node linked before the front node extends the chain
      at the front. */
  lemma {:induction false} ChainedPrepend<T>(pool: seq<Cell<T>>, ns: seq<int>, cs: seq<T>, x: T)
    requires Chained(pool, ns, cs) && ns != []
    ensures Chained(WithPrevious(pool + [Cell(x, Nil, ns[0])], ns[0], |pool|),
                    [|pool|] + ns, [x] + cs)
  {
    var n := |pool|;
    var q := WithPrevious(pool + [Cell(x, Nil, ns[0])], ns[0], n);
    var m, d := [n] + ns, [x] + cs;
    assert Joined(pool, ns, cs, 0);
    forall i | 0 <= i < |m| ensures Joined(q, m, d, i) {
      if i == 0 {
        assert m[0] == n && m[1] == ns[0] && q[n] == Cell(x, Nil, ns[0]);
      } else {
        assert Joined(pool, ns, cs, i - 1);
        assert m[i] == ns[i - 1] && d[i] == cs[i - 1];
        assert m[i - 1] == if i == 1 then n else ns[i - 2];
        assert i < |m| - 1 ==> m[i + 1] == ns[i];
        assert i > 1 ==> ns[i - 1] != ns[0];
        assert q[m[i]] == if i == 1 then pool[ns[0]].(previous := n) else pool[ns[i - 1]];
      }
    }
    forall i, j | 0 <= i < j < |m| ensures m[i] != m[j] {
      if i > 0 {
        assert m[i] == ns[i - 1] && m[j] == ns[j - 1];
      } else {
        assert Joined(pool, ns, cs, j - 1);
      }
    }
  }

  /** addEnd: a new node linked after the back node extends the chain at
      the back. */
  lemma {:induction false} ChainedAppend<T>(pool: seq<Cell<T>>, ns: seq<int>, cs: seq<T>, x: T)
    requires Chained(pool, ns, cs) && ns != []
    ensures Chained(WithNext(pool + [Cell(x, ns[|ns| - 1], Nil)], ns[|ns| - 1], |pool|),
                    ns + [|pool|], cs + [x])
  {
    var n := |pool|;
    var b := ns[|ns| - 1];
    var q := WithNext(pool + [Cell(x, b, Nil)], b, n);
    var m, d := ns + [n], cs + [x];
    assert Joined(pool, ns, cs, |ns| - 1);
    forall i | 0 <= i < |m| ensures Joined(q, m, d, i) {
      if i == |ns| {
        assert m[i] == n && m[i - 1] == b && q[n] == Cell(x, b, Nil);
      } else {
        assert Joined(pool, ns, cs, i);
        assert m[i] == ns[i] && d[i] == cs[i] && m[i + 1] == if i == |ns| - 1 then n else ns[i + 1];
        assert i > 0 ==> m[i - 1] == ns[i - 1];
        assert i < |ns| - 1 ==> ns[i] != b;
        assert q[m[i]] == if i == |ns| - 1 then pool[b].(next := n) else pool[ns[i]];
      }
    }
    forall i, j | 0 <= i < j < |m| ensures m[i] != m[j] {
      assert Joined(pool, ns, cs, i);
    }
  }

  /** The splice of add's scan: a new node linked between the chained nodes
      at positions `k - 1` and `k` joins the chain there. */
  lemma {:induction false} ChainedSplice<T>(
    pool: seq<Cell<T>>, ns: seq<int>, cs: seq<T>, k: nat, x: T)
    requires Chained(pool, ns, cs) && 0 < k < |ns|
    ensures Chained(WithPrevious(WithNext(pool + [Cell(x, ns[k - 1], ns[k])], ns[k - 1], |pool|),
                                 ns[k], |pool|),
                    ns[..k] + [|pool|] + ns[k..], cs[..k] + [x] + cs[k..])
  {
    var n := |pool|;
    var q := WithPrevious(WithNext(pool + [Cell(x, ns[k - 1], ns[k])], ns[k - 1], n), ns[k], n);
    var m, d := ns[..k] + [n] + ns[k..], cs[..k] + [x] + cs[k..];
    assert |m| == |ns| + 1;
    assert Joined(pool, ns, cs, k - 1) && Joined(pool, ns, cs, k);
    forall i | 0 <= i < |m| ensures Joined(q, m, d, i) {
      if i < k {
        assert Joined(pool, ns, cs, i);
        assert m[i] == ns[i] && d[i] == cs[i];
        assert i > 0 ==> m[i - 1] == ns[i - 1];
        assert m[i + 1] == if i + 1 == k then n else ns[i + 1];
        assert i < k - 1 ==> ns[i] != ns[k - 1];
        assert ns[i] != ns[k];
        assert q[m[i]] == if i == k - 1 then pool[ns[i]].(next := n) else pool[ns[i]];
      } else if i == k {
        assert m[i] == n && d[i] == x && m[i - 1] == ns[k - 1] && m[i + 1] == ns[k];
      } else {
        assert Joined(pool, ns, cs, i - 1);
        assert m[i] == ns[i - 1] && d[i] == cs[i - 1];
        assert m[i - 1] == if i - 1 == k then n else ns[i - 2];
        assert i + 1 < |m| ==> m[i + 1] == ns[i];
        assert i > k + 1 ==> ns[i - 1] != ns[k];
        assert ns[i - 1] != ns[k - 1];
        assert q[m[i]] == if i == k + 1 then pool[ns[k]].(previous := n) else pool[ns[i - 1]];
      }
    }
    forall i, j | 0 <= i < j < |m| ensures m[i] != m[j] {
      if i == k {
        assert Joined(pool, ns, cs, j - 1);
      } else if j == k {
        assert Joined(pool, ns, cs, i);
      } else {
        assert m[i] == ns[if i < k then i else i - 1] && m[j] == ns[if j < k then j else j - 1];
      }
    }
  }

  /** deleteMin of a longer list: dropping the front node and clearing the
      new front's `previous` link leaves a chain of the rest. */
  lemma {:induction false} ChainedDropFront<T>(pool: seq<Cell<T>>, ns: seq<int>, cs: seq<T>)
    requires Chained(pool, ns, cs) && |ns| > 1
    ensures Chained(WithPrevious(pool, ns[1], Nil), ns[1..], cs[1..])
  {
    var q := WithPrevious(pool, ns[1], Nil);
    var m, d := ns[1..], cs[1..];
    forall i | 0 <= i < |m| ensures Joined(q, m, d, i) {
      assert Joined(pool, ns, cs, i + 1);
      assert i > 0 ==> ns[i + 1] != ns[1];
    }
    forall i, j | 0 <= i < j < |m| ensures m[i] != m[j] {
      assert m[i] == ns[i + 1] && m[j] == ns[j + 1];
    }
  }

  /** deleteMax of a longer list: dropping the back node and clearing the
      new back's `next` link leaves a chain of the rest. */
  lemma {:induction false} ChainedDropBack<T>(pool: seq<Cell<T>>, ns: seq<int>, cs: seq<T>)
    requires Chained(pool, ns, cs) && |ns| > 1
    ensures Chained(WithNext(pool, ns[|ns| - 2], Nil), ns[..|ns| - 1], cs[..|cs| - 1])
  {
    var b := ns[|ns| - 2];
    var q := WithNext(pool, b, Nil);
    var m, d := ns[..|ns| - 1], cs[..|cs| - 1];
    forall i | 0 <= i < |m| ensures Joined(q, m, d, i) {
      assert Joined(pool, ns, cs, i);
      assert i < |m| - 1 ==> ns[i] != b;
    }
    forall i, j | 0 <= i < j < |m| ensures m[i] != m[j] {
      assert m[i] == ns[i] && m[j] == ns[j];
    }
  }

  class ListQueue<T> {
    /** The fixed order of the queue, standing for its comparator. */
    const key: T -> int
    var first: int
    var last: int
    var size: int
    /** The node pool. */
    var pool: seq<Cell<T>>
    /** The chained nodes front to back. */
    ghost var nodes: seq<int>
    /** The elements front to back. */
    ghost var Contents: seq<T>

    /** The link invariant: `nodes` is a chain holding `Contents`, `first`
        and `last` are its end nodes (both `Nil` exactly when empty) and
        `size` is its length. */
    ghost predicate Linked()
      reads this
    {
      && Chained(pool, nodes, Contents)
      && size == |nodes|
      && first == (if nodes == [] then Nil else nodes[0])
      && last == (if nodes == [] then Nil else nodes[|nodes| - 1])
    }

    /** The object invariant: well linked and sorted. */
    ghost predicate Valid()
      reads this
    {
      Linked() && Sorted(key, Contents)
    }

    constructor (key: T -> int)
      ensures Valid() && Contents == [] && this.key == key
    {
      this.key := key;
      pool := [];
      new;
      MakeEmpty();
    }

    /** Allocates a node holding `d` with neighbours `p` and `n`. */
    method NewNode(d: T, p: int, n: int) returns (r: int)
      modifies this
      ensures r == old(|pool|) && pool == old(pool) + [Cell(d, p, n)]
      ensures first == old(first) && last == old(last) && size == old(size)
      ensures nodes == old(nodes) && Contents == old(Contents)
    {
      r := |pool|;
      pool := pool + [Cell(d, p, n)];
    }

    method MakeEmpty()
      modifies this
      ensures Valid() && Contents == [] && nodes == []
      ensures first == Nil && last == Nil && size == 0 && pool == old(pool)
    {
      first := Nil;
      last := Nil;
      size := 0;
      nodes, Contents := [], [];
    }

    predicate IsEmpty()
      reads this
      requires Valid()
      ensures IsEmpty() <==> Contents == []
      ensures IsEmpty() <==> first == Nil && last == Nil
    {
      assert nodes != [] ==> Joined(pool, nodes, Contents, 0);
      size == 0
    }

    /** Prepends `x` to a non-empty list whose front key is at least its key. */
    method AddFront(x: T)
      requires Valid() && Contents != [] && key(x) <= key(Contents[0])
      modifies this
      ensures Valid() && Contents == [x] + old(Contents)
    {
      ghost var ns, cs := nodes, Contents;
      ChainedPrepend(pool, ns, cs, x);
      first := NewNode(x, Nil, first);
      pool := WithPrevious(pool, pool[first].next, first);
      size := size + 1;
      nodes, Contents := [first] + ns, [x] + cs;
      assert Sorted(key, Contents) by {
        forall i, j | 0 <= i < j < |Contents|
          ensures key(Contents[i]) <= key(Contents[j])
        {
          assert i == 0 ==> key(Contents[1]) <= key(Contents[j]);
        }
      }
    }

    /** Appends `x` to a non-empty list whose back key is at most its key. */
    method AddEnd(x: T)
      requires Valid() && Contents != [] && key(Contents[|Contents| - 1]) <= key(x)
      modifies this
      ensures Valid() && Contents == old(Contents) + [x]
    {
      ghost var ns, cs := nodes, Contents;
      ChainedAppend(pool, ns, cs, x);
      last := NewNode(x, last, Nil);
      pool := WithNext(pool, pool[last].previous, last);
      size := size + 1;
      nodes, Contents := ns + [last], cs + [x];
      assert Sorted(key, Contents) by {
        forall i, j | 0 <= i < j < |Contents|
          ensures key(Contents[i]) <= key(Contents[j])
        {
          assert j == |Contents| - 1 ==> key(Contents[i]) <= key(Contents[|Contents| - 2]);
        }
      }
    }

    /** Splices a new node holding `x` in just before `f`, the chained node
        at position `k > 0`, and counts it. */
    method LinkBefore(f: int, ghost k: nat, x: T)
      requires Valid() && 0 < k < |nodes| && f == nodes[k]
      requires forall j :: 0 <= j < k ==> key(Contents[j]) <= key(x)
      requires key(x) < key(Contents[k])
      modifies this
      ensures Valid()
      ensures Contents == old(Contents)[..k] + [x] + old(Contents)[k..]
      ensures size == old(size) + 1
    {
      ghost var ns, cs := nodes, Contents;
      assert forall j :: k <= j < |cs| ==> key(x) <= key(cs[j]) by {
        forall j | k <= j < |cs| ensures key(x) <= key(cs[j]) {
          assert j == k || key(cs[k]) <= key(cs[j]);
        }
      }
      InsertAtSorted(key, cs, k, x);
      ChainedSplice(pool, ns, cs, k, x);
      assert Joined(pool, ns, cs, k);
      var p := pool[f].previous;
      var n := NewNode(x, p, f);
      pool := WithPrevious(WithNext(pool, p, n), f, n);
      size := size + 1;
      nodes, Contents := ns[..k] + [n] + ns[k..], cs[..k] + [x] + cs[k..];
    }

    method Add(x: T)
      requires Valid()
      modifies this
      ensures Valid()
      ensures Contents == Placed(key, old(Contents), x)
      ensures multiset(Contents) == multiset(old(Contents)) + multiset{x}
      ensures size == old(size) + 1
    {
      PlacedSorted(key, Contents, x);
      PlacedElements(key, Contents, x);
      if IsEmpty() {
        var n := NewNode(x, Nil, Nil);
        first, last := n, n;
        size := size + 1;
        nodes, Contents := [n], [x];
        assert Joined(pool, nodes, Contents, 0);
      } else if size == 1 {
        assert Joined(pool, nodes, Contents, 0);
        if key(pool[first].data) >= key(x) {
          AddFront(x);
        } else if key(pool[first].data) <= key(x) {
          AddEnd(x);
        }
      } else {
        assert Joined(pool, nodes, Contents, 0);
        assert Joined(pool, nodes, Contents, |nodes| - 1);
        if key(pool[first].data) >= key(x) {
          AddFront(x);
        } else if key(pool[last].data) <= key(x) {
          AddEnd(x);
        } else {
          AddInside(x);
        }
      }
    }

    /** The scan of add when `x` belongs strictly inside the list: walk from
        the second node to the first one whose key is strictly greater than
        the key of `x` and splice `x` in before it. */
    method AddInside(x: T)
      requires Valid() && |Contents| > 1
      requires key(Contents[0]) < key(x) < key(Contents[|Contents| - 1])
      modifies this
      ensures Valid()
      ensures Contents == Placed(key, old(Contents), x)
      ensures size == old(size) + 1
    {
      assert Joined(pool, nodes, Contents, 0);
      var f := pool[first].next;
      ghost var k := 1;
      while f != Nil
        invariant Valid() && nodes == old(nodes) && Contents == old(Contents) && size == old(size)
        invariant 1 <= k < |nodes| && f == nodes[k] && Joined(pool, nodes, Contents, k)
        invariant forall j :: 0 <= j < k ==> key(Contents[j]) <= key(x)
        decreases |nodes| - k
      {
        if key(x) < key(pool[f].data) {
          assert k == FirstGreater(key, Contents, x);
          LinkBefore(f, k, x);
          return;
        }
        f := pool[f].next;
        k := k + 1;
        assert k < |nodes| by {
          assert key(x) < key(Contents[|Contents| - 1]);
        }
        assert Joined(pool, nodes, Contents, k);
      }
      assert false;
    }

    method DeleteMin() returns (r: Result<T>)
      requires Valid()
      modifies this
      ensures Valid()
      ensures r.Underflow? <==> old(Contents) == []
      ensures r.Underflow? ==> unchanged(this)
      ensures r.Ok? ==> r.value == old(Contents)[0] && Contents == old(Contents)[1..]
      ensures r.Ok? ==> IsMin(key, multiset(old(Contents)), r.value)
      ensures r.Ok? ==> size == old(size) - 1
    {
      if IsEmpty() {
        return Underflow;
      }
      SortedFrontIsMin(key, Contents);
      assert Joined(pool, nodes, Contents, 0);
      if size == 1 {
        size := size - 1;
        var rem := pool[first].data;
        MakeEmpty();
        return Ok(rem);
      } else {
        ChainedDropFront(pool, nodes, Contents);
        assert Joined(pool, nodes, Contents, 1);
        var rem := pool[first].data;
        first := pool[first].next;
        pool := WithPrevious(pool, first, Nil);
        size := size - 1;
        nodes, Contents := nodes[1..], Contents[1..];
        return Ok(rem);
      }
    }

    method DeleteMax() returns (r: Result<T>)
      requires Valid()
      modifies this
      ensures Valid()
      ensures r.Underflow? <==> old(Contents) == []
      ensures r.Underflow? ==> unchanged(this)
      ensures r.Ok? ==> r.value == old(Contents)[|old(Contents)| - 1]
      ensures r.Ok? ==> Contents == old(Contents)[..|old(Contents)| - 1]
      ensures r.Ok? ==> IsMax(key, multiset(old(Contents)), r.value)
      ensures r.Ok? ==> size == old(size) - 1
    {
      if IsEmpty() {
        return Underflow;
      }
      SortedBackIsMax(key, Contents);
      assert Joined(pool, nodes, Contents, |nodes| - 1);
      if size == 1 {
        size := size - 1;
        var rem := pool[last].data;
        MakeEmpty();
        return Ok(rem);
      } else {
        ChainedDropBack(pool, nodes, Contents);
        size := size - 1;
        var rem := pool[last].data;
        last := pool[last].previous;
        pool := WithNext(pool, last, Nil);
        nodes, Contents := nodes[..|nodes| - 1], Contents[..|Contents| - 1];
        assert Sorted(key, Contents);
        return Ok(rem);
      }
    }

    method FindMin() returns (r: Result<T>)
      requires Valid()
      ensures r.Underflow? <==> Contents == []
      ensures r.Ok? ==> r.value == Contents[0] && IsMin(key, multiset(Contents), r.value)
    {
      if IsEmpty() {
        return Underflow;
      }
      SortedFrontIsMin(key, Contents);
      assert Joined(pool, nodes, Contents, 0);
      return Ok(pool[first].data);
    }

    method FindMax() returns (r: Result<T>)
      requires Valid()
      ensures r.Underflow? <==> Contents == []
      ensures r.Ok? ==> r.value == Contents[|Contents| - 1]
      ensures r.Ok? ==> IsMax(key, multiset(Contents), r.value)
    {
      if IsEmpty() {
        return Underflow;
      }
      SortedBackIsMax(key, Contents);
      assert Joined(pool, nodes, Contents, |nodes| - 1);
      return Ok(pool[last].data);
    }
  }
}
