/** The node structure of an unbalanced binary search tree over distinct
    integer keys, and the top-down descents that insert and remove a key.
    A node is a value here: a subtree is rebuilt along the search path
    instead of having one of its links overwritten. */
module Trees {

  /** A node holds a key and its left and right links; Leaf is the absent link. */
  datatype Tree = Leaf | Node(key: int, left: Tree, right: Tree)

  /** The keys reachable from t. */
  function Elems(t: Tree): set<int>
  {
    match t
    case Leaf => {}
    case Node(k, l, r) => Elems(l) + {k} + Elems(r)
  }

  /** The ordering invariant: left keys are smaller, right keys larger, at every node. */
  predicate BST(t: Tree)
  {
    match t
    case Leaf => true
    case Node(k, l, r) =>
      && BST(l) && BST(r)
      && (forall y :: y in Elems(l) ==> y < k)
      && (forall y :: y in Elems(r) ==> k < y)
  }

  /** The number of nodes reachable from t. */
  function NodeCount(t: Tree): nat
  {
    match t
    case Leaf => 0
    case Node(_, l, r) => NodeCount(l) + 1 + NodeCount(r)
  }

  /** The keys in in-order traversal (left subtree, node, right subtree). */
  function InOrder(t: Tree): (s: seq<int>)
    ensures |s| == NodeCount(t)
    ensures forall y :: y in s <==> y in Elems(t)
  {
    match t
    case Leaf => []
    case Node(k, l, r) => InOrder(l) + [k] + InOrder(r)
  }

  predicate StrictlyIncreasing(s: seq<int>)
  {
    forall i, j :: 0 <= i < j < |s| ==> s[i] < s[j]
  }

  /** The number of comparisons a descent from the root of t makes before it
      meets y, that is, the depth of the node holding y. */
  function SearchDepth(t: Tree, y: int): nat
  {
    match t
    case Leaf => 0
    case Node(k, l, r) =>
      if y == k then 0
      else if y < k then 1 + SearchDepth(l, y)
      else 1 + SearchDepth(r, y)
  }

  /** In a search tree the count of nodes is the number of distinct keys. */
  lemma {:induction false} CountIsCardinality(t: Tree)
    requires BST(t)
    ensures NodeCount(t) == |Elems(t)|
  {
    match t
    case Leaf =>
    case Node(k, l, r) =>
      CountIsCardinality(l);
      CountIsCardinality(r);
      assert Elems(l) * Elems(r) == {} by {
        forall y | y in Elems(l) ensures y !in Elems(r) {
          assert y < k;
        }
      }
      assert k !in Elems(l) + Elems(r);
      assert Elems(t) == (Elems(l) + Elems(r)) + {k};
      assert |Elems(l) + Elems(r)| == |Elems(l)| + |Elems(r)|;
  }

  /** An in-order traversal of a search tree lists its keys in ascending order. */
  lemma {:induction false} InOrderAscending(t: Tree)
    requires BST(t)
    ensures StrictlyIncreasing(InOrder(t))
  {
    match t
    case Leaf =>
    case Node(k, l, r) =>
      InOrderAscending(l);
      InOrderAscending(r);
      var s, a, b := InOrder(t), InOrder(l), InOrder(r);
      assert s == a + [k] + b;
      forall i, j | 0 <= i < j < |s| ensures s[i] < s[j] {
        if j < |a| {
        } else if i < |a| {
          assert s[i] in Elems(l);
          if j > |a| {
            assert s[j] == b[j - |a| - 1];
            assert s[j] in Elems(r);
          }
        } else if i == |a| {
          assert s[j] == b[j - |a| - 1];
          assert s[j] in Elems(r);
        } else {
          assert s[i] == b[i - |a| - 1] && s[j] == b[j - |a| - 1];
        }
      }
  }

  /** Insertion: descend by comparison; an equal key stops the descent and
      leaves the tree as it was, otherwise the key becomes a new leaf where
      the descent falls off the tree. The flag tells whether a node was added. */
  function Insert(t: Tree, x: int): (r: (Tree, bool))
    requires BST(t)
    ensures BST(r.0)
    ensures r.1 <==> x !in Elems(t)
    ensures Elems(r.0) == Elems(t) + {x}
    ensures NodeCount(r.0) == if r.1 then NodeCount(t) + 1 else NodeCount(t)
    ensures !r.1 ==> r.0 == t
  {
    match t
    case Leaf => (Node(x, Leaf, Leaf), true)
    case Node(k, l, rt) =>
      if x == k then (t, false)
      else if x < k then
        var (l', added) := Insert(l, x);
        (Node(k, l', rt), added)
      else
        var (rt', added) := Insert(rt, x);
        (Node(k, l, rt'), added)
  }

  /** The tree obtained by inserting the keys of xs one after another, in order. */
  function InsertAll(t: Tree, xs: seq<int>): (r: Tree)
    requires BST(t)
    ensures BST(r)
    ensures Elems(r) == Elems(t) + (set y | y in xs)
    decreases |xs|
  {
    if xs == [] then t
    else
      var front := xs[..|xs| - 1];
      assert xs == front + [xs[|xs| - 1]];
      Insert(InsertAll(t, front), xs[|xs| - 1]).0
  }

  /** Detaches the left-most node of a non-empty tree, splicing its right
      child into its place; returns that node's key, the least key of t. */
  function RemoveMin(t: Tree): (r: (int, Tree))
    requires t.Node? && BST(t)
    ensures r.0 in Elems(t) && forall y :: y in Elems(t) ==> r.0 <= y
    ensures BST(r.1) && Elems(r.1) == Elems(t) - {r.0}
    ensures NodeCount(r.1) == NodeCount(t) - 1
  {
    if t.left.Leaf? then (t.key, t.right)
    else
      var (m, l') := RemoveMin(t.left);
      (m, Node(t.key, l', t.right))
  }

  /** Removes the key of the node t itself: with no child or one child the
      surviving child (or nothing) takes its place; with two children the
      in-order successor's key is copied into the node and the successor is
      detached from the right subtree. */
  function DeleteRoot(t: Tree): (r: Tree)
    requires t.Node? && BST(t)
    ensures BST(r) && Elems(r) == Elems(t) - {t.key}
    ensures NodeCount(r) == NodeCount(t) - 1
  {
    if t.left.Leaf? then t.right
    else if t.right.Leaf? then t.left
    else
      var (m, r') := RemoveMin(t.right);
      Node(m, t.left, r')
  }

  /** Removal: descend by comparison; a missing key leaves the tree as it
      was, a found one is removed by DeleteRoot on its node. The flag tells
      whether a node was removed. */
  function Delete(t: Tree, x: int): (r: (Tree, bool))
    requires BST(t)
    ensures BST(r.0)
    ensures r.1 <==> x in Elems(t)
    ensures Elems(r.0) == Elems(t) - {x}
    ensures NodeCount(r.0) == if r.1 then NodeCount(t) - 1 else NodeCount(t)
    ensures !r.1 ==> r.0 == t
  {
    match t
    case Leaf => (Leaf, false)
    case Node(k, l, rt) =>
      if x == k then (DeleteRoot(t), true)
      else if x < k then
        var (l', removed) := Delete(l, x);
        (Node(k, l', rt), removed)
      else
        var (rt', removed) := Delete(rt, x);
        (Node(k, l, rt'), removed)
  }

  /** Removing a key held by a node with two children keeps that node and its
      left subtree, and gives it the in-order successor's key: the least key
      greater than the removed one. */
  lemma SuccessorTakesItsPlace(t: Tree)
    requires BST(t) && t.Node? && t.left.Node? && t.right.Node?
    ensures var r := Delete(t, t.key).0;
      && r.Node? && r.left == t.left
      && r.key in Elems(t) && t.key < r.key
      && forall y :: y in Elems(t) && t.key < y ==> r.key <= y
  {
  }

  /** Adding a key that is absent and then removing it gives back the very
      same tree: the new node is a leaf, and a leaf is detached outright. */
  lemma {:induction false} DeleteUndoesInsert(t: Tree, x: int)
    requires BST(t) && x !in Elems(t)
    ensures Delete(Insert(t, x).0, x) == (t, true)
  {
    match t
    case Leaf =>
    case Node(k, l, r) =>
      if x < k {
        DeleteUndoesInsert(l, x);
      } else {
        DeleteUndoesInsert(r, x);
      }
  }

  /** A second insertion of the same key reports false and changes nothing. */
  lemma InsertTwice(t: Tree, x: int)
    requires BST(t)
    ensures var t1 := Insert(t, x).0; Insert(t1, x) == (t1, false)
  {
  }
}
