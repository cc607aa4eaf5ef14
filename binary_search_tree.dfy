/** The binary search tree of
    LearnDataStructures/BinarySearchTree/BinarySearchTree.swift: a set of keys
    without duplicates, kept so that every node is greater than all keys of its
    left subtree and smaller than all keys of its right subtree, together with a
    node count `size` that the recursive helpers adjust as they go. */
module BinarySearchTrees {

  /** A subtree, as a value: the source's optional `Node`. */
  datatype Tree = Nil | Node(left: Tree, value: int, right: Tree)

  ghost function Keys(t: Tree): set<int> {
    match t
    case Nil => {}
    case Node(l, v, r) => Keys(l) + {v} + Keys(r)
  }

  /** The search-tree ordering. */
  ghost predicate Ordered(t: Tree) {
    match t
    case Nil => true
    case Node(l, v, r) =>
      && Ordered(l) && Ordered(r)
      && (forall k :: k in Keys(l) ==> k < v)
      && (forall k :: k in Keys(r) ==> v < k)
  }

  /** The number of nodes. */
  function Size(t: Tree): nat {
    match t
    case Nil => 0
    case Node(l, _, r) => Size(l) + 1 + Size(r)
  }

  /** In a search tree no key occurs twice, so the node count is the number of
      keys. */
  lemma {:induction false} SizeIsKeyCount(t: Tree)
    requires Ordered(t)
    ensures Size(t) == |Keys(t)|
  {
    match t
    case Nil =>
    case Node(l, v, r) =>
      SizeIsKeyCount(l);
      SizeIsKeyCount(r);
      forall k | k in Keys(l) ensures k !in Keys(r) {
      }
      assert Keys(l) !! Keys(r) && v !in Keys(l) && v !in Keys(r);
      calc {
        |Keys(t)|;
        |Keys(l) + {v} + Keys(r)|;
        |Keys(l) + {v}| + |Keys(r)|;
        |Keys(l)| + 1 + |Keys(r)|;
      }
  }

  /** `contains(_:in:)`: descends by comparing with each node's value. On a
      search tree it answers membership. */
  function Contains(t: Tree, v: int): (b: bool)
    ensures Ordered(t) ==> (b <==> v in Keys(t))
  {
    match t
    case Nil => false
    case Node(l, x, r) =>
      if x == v then true
      else if x > v then Contains(l, v)
      else Contains(r, v)
  }

  /** `minimum(_:)`: the leftmost node's value, the smallest key. */
  function Minimum(t: Tree): (m: int)
    requires t.Node?
    ensures m in Keys(t)
    ensures Ordered(t) ==> forall k :: k in Keys(t) ==> m <= k
  {
    if t.left.Nil? then t.value else Minimum(t.left)
  }

  /** `maximum(_:)`: the rightmost node's value, the largest key. */
  function Maximum(t: Tree): (m: int)
    requires t.Node?
    ensures m in Keys(t)
    ensures Ordered(t) ==> forall k :: k in Keys(t) ==> k <= m
  {
    if t.right.Nil? then t.value else Maximum(t.right)
  }

  /** `traversePreOrder`: the values in the order `process` sees them. */
  function PreOrder(t: Tree): seq<int> {
    match t
    case Nil => []
    case Node(l, v, r) => [v] + PreOrder(l) + PreOrder(r)
  }

  /** `traverseInOrder`. */
  function InOrder(t: Tree): seq<int> {
    match t
    case Nil => []
    case Node(l, v, r) => InOrder(l) + [v] + InOrder(r)
  }

  /** `traversePostOrder`. */
  function PostOrder(t: Tree): seq<int> {
    match t
    case Nil => []
    case Node(l, v, r) => PostOrder(l) + PostOrder(r) + [v]
  }

  ghost predicate Distinct(s: seq<int>) {
    forall i, j :: 0 <= i < j < |s| ==> s[i] != s[j]
  }

  ghost predicate StrictlyAscending(s: seq<int>) {
    forall i, j :: 0 <= i < j < |s| ==> s[i] < s[j]
  }

  /** A concatenation of distinct sequences with disjoint elements is
      distinct. */
  lemma DistinctConcat(a: seq<int>, b: seq<int>)
    requires Distinct(a) && Distinct(b)
    requires forall x :: x in a ==> x !in b
    ensures Distinct(a + b)
  {
    forall i, j | 0 <= i < j < |a + b| ensures (a + b)[i] != (a + b)[j] {
      if i < |a| && |a| <= j {
        assert (a + b)[i] in a && (a + b)[j] in b;
      }
    }
  }

  /** In-order traversal of a search tree visits its keys in strictly
      ascending order, and nothing else. */
  lemma {:induction false} InOrderAscending(t: Tree)
    requires Ordered(t)
    ensures StrictlyAscending(InOrder(t))
    ensures forall k :: k in InOrder(t) <==> k in Keys(t)
  {
    match t
    case Nil =>
    case Node(l, v, r) =>
      InOrderAscending(l);
      InOrderAscending(r);
      var s := InOrder(t);
      assert s == InOrder(l) + [v] + InOrder(r);
      forall i, j | 0 <= i < j < |s| ensures s[i] < s[j] {
        var n := |InOrder(l)|;
        if j < n || i > n {
        } else {
          assert i < n ==> s[i] in InOrder(l);
          assert j > n ==> s[j] in InOrder(r);
        }
      }
  }

  /** Pre-order traversal of a search tree visits every key exactly once. */
  lemma {:induction false} PreOrderVisitsEachOnce(t: Tree)
    requires Ordered(t)
    ensures Distinct(PreOrder(t))
    ensures forall k :: k in PreOrder(t) <==> k in Keys(t)
  {
    match t
    case Nil =>
    case Node(l, v, r) =>
      PreOrderVisitsEachOnce(l);
      PreOrderVisitsEachOnce(r);
      DistinctConcat([v], PreOrder(l));
      DistinctConcat([v] + PreOrder(l), PreOrder(r));
  }

  /** Post-order traversal of a search tree visits every key exactly once. */
  lemma {:induction false} PostOrderVisitsEachOnce(t: Tree)
    requires Ordered(t)
    ensures Distinct(PostOrder(t))
    ensures forall k :: k in PostOrder(t) <==> k in Keys(t)
  {
    match t
    case Nil =>
    case Node(l, v, r) =>
      PostOrderVisitsEachOnce(l);
      PostOrderVisitsEachOnce(r);
      DistinctConcat(PostOrder(l), PostOrder(r));
      DistinctConcat(PostOrder(l) + PostOrder(r), [v]);
  }

  // Level order: a breadth-first walk over a queue of subtrees.

  /** The children a node puts on the queue: only the present ones. */
  function Kids(t: Tree): seq<Tree> {
    match t
    case Nil => []
    case Node(l, _, r) => (if l.Node? then [l] else []) + (if r.Node? then [r] else [])
  }

  function TotalSize(q: seq<Tree>): nat {
    if q == [] then 0 else Size(q[0]) + TotalSize(q[1..])
  }

  lemma {:induction false} TotalSizeConcat(a: seq<Tree>, b: seq<Tree>)
    ensures TotalSize(a + b) == TotalSize(a) + TotalSize(b)
  {
    if a == [] {
      assert a + b == b;
    } else {
      assert (a + b)[1..] == a[1..] + b;
      TotalSizeConcat(a[1..], b);
    }
  }

  lemma KidsSize(t: Tree)
    requires t.Node?
    ensures TotalSize(Kids(t)) + 1 == Size(t)
  {
    var l, r := t.left, t.right;
    TotalSizeConcat(if l.Node? then [l] else [], if r.Node? then [r] else []);
    assert TotalSize([l]) == Size(l) by { assert [l][1..] == []; }
    assert TotalSize([r]) == Size(r) by { assert [r][1..] == []; }
  }

  /** The nodes a breadth-first walk of the queue `q` visits, in order: the
      front node, then the walk of the rest with its children enqueued. */
  ghost function Bfs(q: seq<Tree>): seq<Tree>
    decreases TotalSize(q), |q|
  {
    if q == [] then []
    else if q[0].Nil? then Bfs(q[1..])
    else
      TotalSizeConcat(q[1..], Kids(q[0]));
      KidsSize(q[0]);
      [q[0]] + Bfs(q[1..] + Kids(q[0]))
  }

  /** The values of a sequence of nodes. */
  function Values(s: seq<Tree>): (vs: seq<int>)
    ensures |vs| <= |s|
  {
    if s == [] then []
    else (if s[0].Node? then [s[0].value] else []) + Values(s[1..])
  }

  lemma AppendAssoc(a: seq<int>, b: seq<int>, c: seq<int>)
    ensures (a + b) + c == a + (b + c)
  {
  }

  lemma {:induction false} ValuesConcat(a: seq<Tree>, b: seq<Tree>)
    ensures Values(a + b) == Values(a) + Values(b)
  {
    if a == [] {
      assert a + b == b;
    } else {
      var ab := a + b;
      assert ab[0] == a[0];
      assert ab[1..] == a[1..] + b;
      ValuesConcat(a[1..], b);
      var h := if a[0].Node? then [a[0].value] else [];
      assert Values(ab) == h + (Values(a[1..]) + Values(b));
      AppendAssoc(h, Values(a[1..]), Values(b));
    }
  }

  lemma ValuesPrepend(t: Tree, b: seq<Tree>)
    requires t.Node?
    ensures Values([t] + b) == [t.value] + Values(b)
  {
    assert ([t] + b)[1..] == b;
  }

  /** Every node on the queue is visited. */
  lemma {:induction false} BfsVisitsQueue(q: seq<Tree>)
    ensures forall t :: t in q && t.Node? ==> t in Bfs(q)
    decreases TotalSize(q), |q|
  {
    if q != [] {
      var rest := if q[0].Nil? then q[1..] else q[1..] + Kids(q[0]);
      if q[0].Node? {
        TotalSizeConcat(q[1..], Kids(q[0]));
        KidsSize(q[0]);
      }
      BfsVisitsQueue(rest);
      forall t | t in q && t.Node? ensures t in Bfs(q) {
        if t != q[0] {
          assert t in q[1..];
          assert t in rest;
        }
      }
    }
  }

  /** Every child of a node in `b` appears in `b` after that node. */
  ghost predicate ParentFirst(b: seq<Tree>) {
    forall i, c :: 0 <= i < |b| && c in Kids(b[i]) ==> exists j :: i < j < |b| && b[j] == c
  }

  /** Prepending a node keeps the order when its children follow it. */
  lemma PrependParentFirst(t: Tree, b: seq<Tree>)
    requires ParentFirst(b)
    requires forall c :: c in Kids(t) ==> c in b
    ensures ParentFirst([t] + b)
  {
    var tb := [t] + b;
    forall i, c | 0 <= i < |tb| && c in Kids(tb[i])
      ensures exists j :: i < j < |tb| && tb[j] == c
    {
      if i == 0 {
        var j' :| 0 <= j' < |b| && b[j'] == c;
        assert tb[j' + 1] == c;
      } else {
        assert tb[i] == b[i - 1];
        var j' :| i - 1 < j' < |b| && b[j'] == c;
        assert tb[j' + 1] == c;
      }
    }
  }

  /** Each visited node comes before its children. */
  lemma {:induction false} BfsParentFirst(q: seq<Tree>)
    ensures ParentFirst(Bfs(q))
    decreases TotalSize(q), |q|
  {
    if q != [] {
      if q[0].Nil? {
        BfsParentFirst(q[1..]);
      } else {
        var t := q[0];
        var rest := q[1..] + Kids(t);
        TotalSizeConcat(q[1..], Kids(t));
        KidsSize(t);
        BfsParentFirst(rest);
        BfsVisitsQueue(rest);
        var br := Bfs(rest);
        assert Bfs(q) == [t] + br;
        forall c | c in Kids(t) ensures c in br {
          assert c in rest && c.Node?;
        }
        PrependParentFirst(t, br);
      }
    }
  }

  /** The keys held by the subtrees on a queue. */
  function QueueKeys(q: seq<Tree>): multiset<int> {
    if q == [] then multiset{} else multiset(InOrder(q[0])) + QueueKeys(q[1..])
  }

  lemma {:induction false} QueueKeysConcat(a: seq<Tree>, b: seq<Tree>)
    ensures QueueKeys(a + b) == QueueKeys(a) + QueueKeys(b)
  {
    if a == [] {
      assert a + b == b;
    } else {
      assert (a + b)[1..] == a[1..] + b;
      QueueKeysConcat(a[1..], b);
    }
  }

  /** One step of the walk from a queue whose front is a node. */
  lemma BfsStep(q: seq<Tree>)
    requires q != [] && q[0].Node?
    ensures Bfs(q) == [q[0]] + Bfs(q[1..] + Kids(q[0]))
  {
  }

  lemma QueueKeysSingle(x: Tree)
    ensures QueueKeys([x]) == multiset(InOrder(x))
  {
    assert [x][1..] == [];
  }

  lemma QueueKeysPair(x: Tree, y: Tree)
    ensures QueueKeys([x, y]) == multiset(InOrder(x)) + multiset(InOrder(y))
  {
    assert [x, y][1..] == [y];
    QueueKeysSingle(y);
  }

  /** The children of a node hold the keys of both its subtrees. */
  lemma KidsKeysOf(l: Tree, v: int, r: Tree)
    ensures QueueKeys(Kids(Node(l, v, r))) == multiset(InOrder(l)) + multiset(InOrder(r))
  {
    if l.Node? && r.Node? {
      assert Kids(Node(l, v, r)) == [l, r];
      QueueKeysPair(l, r);
    } else if l.Node? {
      assert Kids(Node(l, v, r)) == [l];
      QueueKeysSingle(l);
    } else if r.Node? {
      assert Kids(Node(l, v, r)) == [r];
      QueueKeysSingle(r);
    }
  }

  /** The keys of a node are its own value and those of its children. */
  lemma KidsKeys(t: Tree)
    requires t.Node?
    ensures QueueKeys(Kids(t)) + multiset{t.value} == multiset(InOrder(t))
  {
    KidsKeysOf(t.left, t.value, t.right);
    assert InOrder(t) == InOrder(t.left) + [t.value] + InOrder(t.right);
  }

  /** The walk visits exactly the values held on the queue. */
  lemma {:induction false} BfsVisitsAllValues(q: seq<Tree>)
    ensures multiset(Values(Bfs(q))) == QueueKeys(q)
    decreases TotalSize(q), |q|
  {
    if q != [] {
      var t := q[0];
      if t.Nil? {
        BfsVisitsAllValues(q[1..]);
        assert QueueKeys(q) == QueueKeys(q[1..]);
      } else {
        var rest := q[1..] + Kids(t);
        TotalSizeConcat(q[1..], Kids(t));
        KidsSize(t);
        BfsVisitsAllValues(rest);
        var br := Bfs(rest);
        BfsStep(q);
        ValuesConcat([t], br);
        assert Values([t]) == [t.value] by { assert [t][1..] == []; }
        QueueKeysConcat(q[1..], Kids(t));
        KidsKeys(t);
        calc {
          multiset(Values(Bfs(q)));
          multiset([t.value] + Values(br));
          multiset{t.value} + QueueKeys(rest);
          multiset{t.value} + QueueKeys(q[1..]) + QueueKeys(Kids(t));
          multiset(InOrder(t)) + QueueKeys(q[1..]);
        }
      }
    }
  }

  /** A sequence with the same elements as a strictly ascending one has no
      repeats. */
  lemma DistinctOfAscendingMultiset(vs: seq<int>, s: seq<int>)
    requires StrictlyAscending(s) && multiset(vs) == multiset(s)
    ensures Distinct(vs)
  {
    forall i, j | 0 <= i < j < |vs| ensures vs[i] != vs[j] {
      if vs[i] == vs[j] {
        var x := vs[i];
        var m1, m2, m3 := vs[..i], vs[i + 1..j], vs[j + 1..];
        assert vs == m1 + [x] + m2 + [x] + m3;
        assert multiset(vs)[x] >= 2;
        MultisetOfAscending(s, x);
      }
    }
  }

  /** Level order of a tree: the root first, every node before its children,
      and for a search tree each key exactly once. */
  lemma LevelOrderVisitsEachOnce(t: Tree)
    requires t.Node?
    ensures Bfs([t])[0] == t
    ensures ParentFirst(Bfs([t]))
    ensures multiset(Values(Bfs([t]))) == multiset(InOrder(t))
    ensures Ordered(t) ==> Distinct(Values(Bfs([t])))
  {
    BfsStep([t]);
    BfsParentFirst([t]);
    BfsVisitsAllValues([t]);
    QueueKeysSingle(t);
    if Ordered(t) {
      InOrderAscending(t);
      DistinctOfAscendingMultiset(Values(Bfs([t])), InOrder(t));
    }
  }

  /** In a strictly ascending sequence every value occurs at most once. */
  lemma {:induction false} MultisetOfAscending(s: seq<int>, x: int)
    requires StrictlyAscending(s)
    ensures multiset(s)[x] <= 1
  {
    if s != [] {
      assert StrictlyAscending(s[1..]);
      MultisetOfAscending(s[1..], x);
      assert s == [s[0]] + s[1..];
      if s[0] == x {
        assert x !in s[1..];
      }
    }
  }

  /** Replacing a node by the minimum of its right subtree, removed from
      there, keeps the ordering and drops exactly the node's own key. */
  lemma SuccessorReplaces(l: Tree, v: int, r: Tree, r': Tree)
    requires Ordered(Node(l, v, r)) && r.Node?
    requires Ordered(r') && Keys(r') == Keys(r) - {Minimum(r)}
    ensures Ordered(Node(l, Minimum(r), r'))
    ensures Keys(Node(l, Minimum(r), r')) == Keys(Node(l, v, r)) - {v}
  {
    var m := Minimum(r);
    assert v < m;
    assert v !in Keys(l) && v !in Keys(r);
  }

  class BinarySearchTree {
    var root: Tree
    var size: int

    ghost predicate Valid()
      reads this
    {
      Ordered(root) && size == Size(root)
    }

    constructor()
      ensures Valid() && root == Nil
    {
      root := Nil;
      size := 0;
    }

    function IsEmpty(): (b: bool)
      reads this
      requires Valid()
      ensures b <==> Keys(root) == {}
    {
      SizeIsKeyCount(root);
      size == 0
    }

    function Count(): (n: int)
      reads this
      requires Valid()
      ensures n == |Keys(root)|
    {
      SizeIsKeyCount(root);
      size
    }

    /** `insert(_:)`. */
    method Insert(value: int)
      requires Valid()
      modifies this
      ensures Valid()
      ensures Keys(root) == old(Keys(root)) + {value}
      ensures size == old(size) + (if value in old(Keys(root)) then 0 else 1)
      ensures value in old(Keys(root)) ==> root == old(root)
    {
      root := InsertInto(value, root);
    }

    /** `insert(_:to:)`: a missing key becomes a new leaf and bumps `size`; a
        present one changes nothing. */
    method InsertInto(value: int, node: Tree) returns (t: Tree)
      requires Ordered(node)
      modifies this
      ensures Ordered(t)
      ensures Keys(t) == Keys(node) + {value}
      ensures Size(t) == Size(node) + (if value in Keys(node) then 0 else 1)
      ensures size == old(size) + (if value in Keys(node) then 0 else 1)
      ensures value in Keys(node) ==> t == node
      ensures root == old(root)
      decreases node
    {
      if node.Nil? {
        size := size + 1;
        return Node(Nil, value, Nil);
      }
      if node.value > value {
        var l := InsertInto(value, node.left);
        t := Node(l, node.value, node.right);
      } else if node.value < value {
        var r := InsertInto(value, node.right);
        t := Node(node.left, node.value, r);
      } else {
        t := node;
      }
    }

    /** `contains(_:)`. */
    function ContainsKey(value: int): (b: bool)
      reads this
      requires Valid()
      ensures b <==> value in Keys(root)
    {
      Contains(root, value)
    }

    /** `traverseLevelOrder`: a loop over a first-in first-out queue of
        nodes, seeded with the root. */
    method LevelOrder() returns (visits: seq<int>)
      requires Valid()
      ensures visits == Values(Bfs([root]))
    {
      visits := [];
      if root.Nil? {
        assert [root][1..] == [];
        return;
      }
      var queue := [root];
      while queue != []
        invariant forall k :: 0 <= k < |queue| ==> queue[k].Node?
        invariant visits + Values(Bfs(queue)) == Values(Bfs([root]))
        decreases TotalSize(queue), |queue|
      {
        var node := queue[0];
        ghost var rest := queue[1..];
        ghost var next := rest + Kids(node);
        ghost var seen := visits;
        TotalSizeConcat(rest, Kids(node));
        KidsSize(node);
        BfsStep(queue);
        ValuesPrepend(node, Bfs(next));
        ghost var later := Values(Bfs(next));
        assert seen + ([node.value] + later) == Values(Bfs([root]));
        queue := queue[1..];
        visits := visits + [node.value];
        if node.left.Node? {
          queue := queue + [node.left];
        }
        ghost var mid := queue;
        assert mid == rest + if node.left.Node? then [node.left] else [];
        if node.right.Node? {
          queue := queue + [node.right];
        }
        assert queue == mid + if node.right.Node? then [node.right] else [];
        assert queue == next;
        AppendAssoc(seen, [node.value], later);
      }
    }

    /** `minimum()`: the tree must not be empty. */
    function MinimumKey(): (m: int)
      reads this
      requires Valid() && root.Node?
      ensures m in Keys(root) && forall k :: k in Keys(root) ==> m <= k
    {
      Minimum(root)
    }

    /** `maximum()`: the tree must not be empty. */
    function MaximumKey(): (m: int)
      reads this
      requires Valid() && root.Node?
      ensures m in Keys(root) && forall k :: k in Keys(root) ==> k <= m
    {
      Maximum(root)
    }

    /** `removeMinimum()`. */
    method RemoveMinimum() returns (m: int)
      requires Valid() && root.Node?
      modifies this
      ensures Valid()
      ensures m in old(Keys(root)) && forall k :: k in old(Keys(root)) ==> m <= k
      ensures Keys(root) == old(Keys(root)) - {m}
      ensures size == old(size) - 1
    {
      m := Minimum(root);
      root := RemoveMinimumFrom(root);
    }

    /** `removeMinimum(from:)`: the leftmost node gives way to its right
        subtree, and `size` drops by one. */
    method RemoveMinimumFrom(node: Tree) returns (t: Tree)
      requires node.Node? && Ordered(node)
      modifies this
      ensures Ordered(t)
      ensures Keys(t) == Keys(node) - {Minimum(node)}
      ensures Size(t) == Size(node) - 1
      ensures size == old(size) - 1
      ensures root == old(root)
      decreases node
    {
      if node.left.Nil? {
        size := size - 1;
        return node.right;
      }
      var l := RemoveMinimumFrom(node.left);
      t := Node(l, node.value, node.right);
    }

    /** `removeMaximum()`. */
    method RemoveMaximum() returns (m: int)
      requires Valid() && root.Node?
      modifies this
      ensures Valid()
      ensures m in old(Keys(root)) && forall k :: k in old(Keys(root)) ==> k <= m
      ensures Keys(root) == old(Keys(root)) - {m}
      ensures size == old(size) - 1
    {
      m := Maximum(root);
      root := RemoveMaximumFrom(root);
    }

    /** `removeMaximum(from:)`: the rightmost node gives way to its left
        subtree, and `size` drops by one. */
    method RemoveMaximumFrom(node: Tree) returns (t: Tree)
      requires node.Node? && Ordered(node)
      modifies this
      ensures Ordered(t)
      ensures Keys(t) == Keys(node) - {Maximum(node)}
      ensures Size(t) == Size(node) - 1
      ensures size == old(size) - 1
      ensures root == old(root)
      decreases node
    {
      if node.right.Nil? {
        size := size - 1;
        return node.left;
      }
      var r := RemoveMaximumFrom(node.right);
      t := Node(node.left, node.value, r);
    }

    /** `remove(_:)`. */
    method Remove(value: int)
      requires Valid()
      modifies this
      ensures Valid()
      ensures Keys(root) == old(Keys(root)) - {value}
      ensures size == old(size) - (if value in old(Keys(root)) then 1 else 0)
      ensures value !in old(Keys(root)) ==> root == old(root)
    {
      root := RemoveFrom(value, root);
    }

    /** `remove(_:from:)`: a node with one child gives way to it; a node with
        two children is replaced by its in-order successor, the minimum of its
        right subtree, which is removed from there. */
    method RemoveFrom(value: int, node: Tree) returns (t: Tree)
      requires Ordered(node)
      modifies this
      ensures Ordered(t)
      ensures Keys(t) == Keys(node) - {value}
      ensures Size(t) == Size(node) - (if value in Keys(node) then 1 else 0)
      ensures size == old(size) - (if value in Keys(node) then 1 else 0)
      ensures value !in Keys(node) ==> t == node
      ensures root == old(root)
      decreases node
    {
      if node.Nil? {
        return Nil;
      }
      if value < node.value {
        var l := RemoveFrom(value, node.left);
        t := Node(l, node.value, node.right);
        assert value in Keys(node) <==> value in Keys(node.left);
      } else if value > node.value {
        var r := RemoveFrom(value, node.right);
        t := Node(node.left, node.value, r);
        assert value in Keys(node) <==> value in Keys(node.right);
      } else {
        if node.left.Nil? {
          size := size - 1;
          return node.right;
        }
        if node.right.Nil? {
          size := size - 1;
          return node.left;
        }
        var successor := Minimum(node.right);
        var r := RemoveMinimumFrom(node.right);
        t := Node(node.left, successor, r);
        SuccessorReplaces(node.left, node.value, node.right, r);
      }
    }
  }
}
