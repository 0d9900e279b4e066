/**
  The unbalanced binary search tree over integer keys, as a value.

  A tree is either empty (`Leaf`, the C null pointer) or a node with a left
  subtree, an integer key and a right subtree. The operations below follow the
  recursive C functions branch by branch; the in-place version of the same
  code, over linked node records, is in module BstNodes and is proved to
  compute exactly these values.
*/
module Bst {

  datatype Tree = Leaf | Node(left: Tree, key: int, right: Tree)

  /** The set of keys stored in a tree. */
  function Keys(t: Tree): set<int>
  {
    match t
    case Leaf => {}
    case Node(l, k, r) => Keys(l) + {k} + Keys(r)
  }

  /** The number of nodes of a tree. */
  function Size(t: Tree): nat
  {
    match t
    case Leaf => 0
    case Node(l, _, r) => Size(l) + 1 + Size(r)
  }

  /** The search-tree invariant: every key in a left subtree is strictly less
      than its node's key, every key in a right subtree strictly greater. */
  predicate Ordered(t: Tree)
  {
    match t
    case Leaf => true
    case Node(l, k, r) =>
      && Ordered(l)
      && Ordered(r)
      && (forall x | x in Keys(l) :: x < k)
      && (forall x | x in Keys(r) :: k < x)
  }

  predicate StrictlyAscending(s: seq<int>)
  {
    forall i, j | 0 <= i < j < |s| :: s[i] < s[j]
  }

  /** The keys that `inOrder` emits, left subtree, then the node, then the
      right subtree: one entry per node, and exactly the tree's keys. */
  function InOrder(t: Tree): (s: seq<int>)
    ensures |s| == Size(t)
    ensures forall x :: x in s <==> x in Keys(t)
  {
    match t
    case Leaf => []
    case Node(l, k, r) => InOrder(l) + [k] + InOrder(r)
  }

  /** `insert`: descend right on a greater key, left on a smaller one, create
      a node at the empty slot reached; an equal key is ignored. */
  function Insert(t: Tree, x: int): (r: Tree)
    ensures r.Node?
    ensures Keys(r) == Keys(t) + {x}
    ensures Size(r) <= Size(t) + 1
    ensures Ordered(t) ==> Ordered(r)
  {
    match t
    case Leaf => Node(Leaf, x, Leaf)
    case Node(l, k, rt) =>
      if x > k then Node(l, k, Insert(rt, x))
      else if x < k then Node(Insert(l, x), k, rt)
      else t
  }

  /** `getMax`: the rightmost node of a non-empty tree. It has no right child,
      its key is in the tree and, in an ordered tree, no key is greater. */
  function GetMax(t: Tree): (m: Tree)
    requires t.Node?
    ensures m.Node? && m.right == Leaf
    ensures m.key in Keys(t)
    ensures Ordered(t) ==> forall x | x in Keys(t) :: x <= m.key
  {
    if t.right.Node? then GetMax(t.right) else t
  }

  /** `delete`: descend to the matching node; a leaf is removed, a node with
      one child is replaced by that child, and a node with two children takes
      the largest key of its left subtree, which is then deleted from there.
      An absent key leaves the tree as it is. */
  function Delete(t: Tree, x: int): (r: Tree)
    ensures Keys(r) <= Keys(t)
    ensures Size(r) <= Size(t)
    ensures x !in Keys(t) ==> r == t
    ensures Ordered(t) ==> Ordered(r) && Keys(r) == Keys(t) - {x}
  {
    match t
    case Leaf => Leaf
    case Node(l, k, rt) =>
      if x > k then Node(l, k, Delete(rt, x))
      else if x < k then Node(Delete(l, x), k, rt)
      // Here x == k: the source tests that explicitly and has nothing after it.
      else if l == Leaf && rt == Leaf then Leaf
      else if l == Leaf then rt
      else if rt == Leaf then l
      else
        var m := GetMax(l).key;
        Node(Delete(l, m), m, rt)
  }

  /** `find`: 1 when the descent meets the key, 0 when it falls off the tree.
      The descent is sound on any tree and complete on an ordered one. */
  function Find(t: Tree, x: int): (r: int)
    ensures r == 0 || r == 1
    ensures r == 1 ==> x in Keys(t)
    ensures Ordered(t) ==> (r == 1 <==> x in Keys(t))
  {
    match t
    case Leaf => 0
    case Node(l, k, rt) =>
      if x > k then Find(rt, x)
      else if x < k then Find(l, x)
      else if x == k then 1
      // The source's last branch: after the three comparisons it cannot be reached.
      else assert false; 0
  }

  /** `height`: the number of nodes on the deepest path, 0 for the empty tree. */
  function Height(t: Tree): (h: nat)
    ensures t == Leaf <==> h == 0
    ensures h <= Size(t)
  {
    match t
    case Leaf => 0
    case Node(l, _, r) =>
      var rightH := Height(r);
      var leftH := Height(l);
      if rightH > leftH then rightH + 1 else leftH + 1
  }

  // ---------------------------------------------------------------------------
  // In-order traversal and the ordering invariant

  lemma AscendingSplitParts(a: seq<int>, k: int, b: seq<int>)
    requires StrictlyAscending(a + [k] + b)
    ensures StrictlyAscending(a) && StrictlyAscending(b)
    ensures (forall x | x in a :: x < k) && (forall x | x in b :: k < x)
  {
    var s := a + [k] + b;
    assert s[|a|] == k;
    forall i, j | 0 <= i < j < |a| ensures a[i] < a[j] {
      assert s[i] == a[i] && s[j] == a[j];
    }
    forall i, j | 0 <= i < j < |b| ensures b[i] < b[j] {
      assert s[|a| + 1 + i] == b[i] && s[|a| + 1 + j] == b[j];
    }
    forall x | x in a ensures x < k {
      var i :| 0 <= i < |a| && a[i] == x;
      assert s[i] == x;
    }
    forall x | x in b ensures k < x {
      var i :| 0 <= i < |b| && b[i] == x;
      assert s[|a| + 1 + i] == x;
    }
  }

  lemma AscendingJoin(a: seq<int>, k: int, b: seq<int>)
    requires StrictlyAscending(a) && StrictlyAscending(b)
    requires (forall x | x in a :: x < k) && (forall x | x in b :: k < x)
    ensures StrictlyAscending(a + [k] + b)
  {
    var s := a + [k] + b;
    forall i, j | 0 <= i < j < |s| ensures s[i] < s[j] {
      if j < |a| {
        assert s[i] == a[i] && s[j] == a[j];
      } else if i < |a| {
        assert s[i] == a[i] && a[i] in a;
        if j > |a| {
          assert s[j] == b[j - |a| - 1] && b[j - |a| - 1] in b;
        }
      } else if i == |a| {
        assert s[j] == b[j - |a| - 1] && b[j - |a| - 1] in b;
      } else {
        assert s[i] == b[i - |a| - 1] && s[j] == b[j - |a| - 1];
      }
    }
  }

  /** A tree is ordered exactly when its in-order listing strictly ascends. */
  lemma {:induction false} OrderedIffInOrderAscending(t: Tree)
    ensures Ordered(t) <==> StrictlyAscending(InOrder(t))
  {
    match t
    case Leaf =>
    case Node(l, k, r) =>
      OrderedIffInOrderAscending(l);
      OrderedIffInOrderAscending(r);
      if Ordered(t) {
        AscendingJoin(InOrder(l), k, InOrder(r));
      }
      if StrictlyAscending(InOrder(t)) {
        AscendingSplitParts(InOrder(l), k, InOrder(r));
      }
  }

  /** In an ordered tree no key repeats, so there are as many nodes as keys. */
  lemma {:induction false} OrderedSizeIsKeyCount(t: Tree)
    requires Ordered(t)
    ensures Size(t) == |Keys(t)|
  {
    match t
    case Leaf =>
    case Node(l, k, r) =>
      OrderedSizeIsKeyCount(l);
      OrderedSizeIsKeyCount(r);
      assert Keys(l) !! Keys(r) by {
        forall x | x in Keys(l) ensures x !in Keys(r) { assert x < k; }
      }
      assert k !in Keys(l) + Keys(r);
      assert Keys(t) == (Keys(l) + Keys(r)) + {k};
  }

  // ---------------------------------------------------------------------------
  // Insertion

  /** Inserting a key already in an ordered tree changes nothing. */
  lemma {:induction false} InsertPresentIsIdentity(t: Tree, x: int)
    requires Ordered(t) && x in Keys(t)
    ensures Insert(t, x) == t
  {
    match t
    case Node(l, k, r) =>
      if x > k {
        assert x !in Keys(l);
        InsertPresentIsIdentity(r, x);
      } else if x < k {
        assert x !in Keys(r);
        InsertPresentIsIdentity(l, x);
      }
  }

  /** Inserting the same key twice is inserting it once, on any tree: the second
      descent follows the first and stops at the node the first created. */
  lemma {:induction false} InsertIdempotent(t: Tree, x: int)
    ensures Insert(Insert(t, x), x) == Insert(t, x)
  {
    match t
    case Leaf =>
    case Node(l, k, r) =>
      if x > k {
        InsertIdempotent(r, x);
      } else if x < k {
        InsertIdempotent(l, x);
      }
  }

  // ---------------------------------------------------------------------------
  // Deletion

  /** The two-children case: the node keeps its place and its right subtree,
      takes the largest key of its left subtree, and that key leaves the left
      subtree. */
  lemma DeleteTwoChildren(t: Tree)
    requires Ordered(t) && t.Node? && t.left.Node? && t.right.Node?
    ensures var r := Delete(t, t.key);
            && r.Node? && r.right == t.right
            && r.key in Keys(t.left)
            && (forall x | x in Keys(t.left) :: x <= r.key)
            && Keys(r.left) == Keys(t.left) - {r.key}
            && r.key < t.key
  {
  }

  /** The sequence s with every occurrence of x taken out. */
  function Without(s: seq<int>, x: int): (w: seq<int>)
    ensures forall y :: y in w <==> y in s && y != x
  {
    if s == [] then [] else (if s[0] == x then [] else [s[0]]) + Without(s[1..], x)
  }

  lemma {:induction false} WithoutConcat(a: seq<int>, b: seq<int>, x: int)
    ensures Without(a + b, x) == Without(a, x) + Without(b, x)
  {
    if a == [] {
      assert a + b == b;
    } else {
      assert (a + b)[1..] == a[1..] + b;
      WithoutConcat(a[1..], b, x);
    }
  }

  lemma {:induction false} WithoutAbsent(s: seq<int>, x: int)
    requires x !in s
    ensures Without(s, x) == s
  {
    if s != [] {
      WithoutAbsent(s[1..], x);
    }
  }

  /** Deleting the largest key of an ordered non-empty tree takes the last
      entry off its in-order listing. */
  lemma {:induction false} DeleteMaxInOrder(t: Tree)
    requires Ordered(t) && t.Node?
    ensures InOrder(Delete(t, GetMax(t).key)) + [GetMax(t).key] == InOrder(t)
  {
    var m := GetMax(t).key;
    if t.right.Node? {
      assert GetMax(t) == GetMax(t.right);
      assert m in Keys(t.right);
      assert Delete(t, m) == Node(t.left, t.key, Delete(t.right, m));
      DeleteMaxInOrder(t.right);
    } else {
      assert m == t.key;
    }
  }

  lemma WithoutSplit(a: seq<int>, k: int, b: seq<int>, x: int)
    ensures Without(a + [k] + b, x) == Without(a, x) + Without([k], x) + Without(b, x)
  {
    WithoutConcat(a + [k], b, x);
    WithoutConcat(a, [k], x);
  }

  lemma WithoutNodeMatch(a: seq<int>, x: int, b: seq<int>)
    requires x !in a && x !in b
    ensures Without(a + [x] + b, x) == a + b
  {
    WithoutSplit(a, x, b, x);
    WithoutAbsent(a, x);
    WithoutAbsent(b, x);
    assert [x][1..] == [];
    assert Without([x], x) == [];
    assert a + [] == a;
  }

  lemma WithoutNodeRight(a: seq<int>, k: int, b: seq<int>, x: int)
    requires x !in a && x != k
    ensures Without(a + [k] + b, x) == a + [k] + Without(b, x)
  {
    WithoutSplit(a, k, b, x);
    WithoutAbsent(a, x);
    assert Without([k], x) == [k] + Without([], x);
  }

  lemma WithoutNodeLeft(a: seq<int>, k: int, b: seq<int>, x: int)
    requires x !in b && x != k
    ensures Without(a + [k] + b, x) == Without(a, x) + [k] + b
  {
    WithoutSplit(a, k, b, x);
    WithoutAbsent(b, x);
    assert Without([k], x) == [k] + Without([], x);
  }

  /** The three cases of DeleteInOrder: descending right, descending left,
      and removing the key at the root. */
  lemma DeleteRightCase(l: Tree, k: int, r: Tree, x: int)
    requires Ordered(Node(l, k, r)) && x > k
    requires InOrder(Delete(r, x)) == Without(InOrder(r), x)
    ensures InOrder(Delete(Node(l, k, r), x)) == Without(InOrder(Node(l, k, r)), x)
  {
    assert x !in InOrder(l);
    WithoutNodeRight(InOrder(l), k, InOrder(r), x);
    assert Delete(Node(l, k, r), x) == Node(l, k, Delete(r, x));
  }

  lemma DeleteLeftCase(l: Tree, k: int, r: Tree, x: int)
    requires Ordered(Node(l, k, r)) && x < k
    requires InOrder(Delete(l, x)) == Without(InOrder(l), x)
    ensures InOrder(Delete(Node(l, k, r), x)) == Without(InOrder(Node(l, k, r)), x)
  {
    assert x !in InOrder(r);
    WithoutNodeLeft(InOrder(l), k, InOrder(r), x);
    assert Delete(Node(l, k, r), x) == Node(Delete(l, x), k, r);
  }

  lemma DeleteMatchCase(l: Tree, k: int, r: Tree)
    requires Ordered(Node(l, k, r))
    ensures InOrder(Delete(Node(l, k, r), k)) == Without(InOrder(Node(l, k, r)), k)
  {
    assert k !in InOrder(l) && k !in InOrder(r);
    WithoutNodeMatch(InOrder(l), k, InOrder(r));
    if l.Node? && r.Node? {
      var m := GetMax(l).key;
      assert Delete(Node(l, k, r), k) == Node(Delete(l, m), m, r);
      DeleteMaxInOrder(l);
      assert InOrder(Delete(Node(l, k, r), k)) == (InOrder(Delete(l, m)) + [m]) + InOrder(r);
    } else if l.Node? {
      assert InOrder(r) == [];
    } else {
      assert InOrder(l) == [];
    }
  }

  /** Deleting from an ordered tree removes exactly the occurrence of x from
      the in-order listing, and nothing else moves. */
  lemma {:induction false} DeleteInOrder(t: Tree, x: int)
    requires Ordered(t)
    ensures InOrder(Delete(t, x)) == Without(InOrder(t), x)
  {
    match t
    case Leaf =>
    case Node(l, k, r) =>
      if x > k {
        DeleteInOrder(r, x);
        DeleteRightCase(l, k, r, x);
      } else if x < k {
        DeleteInOrder(l, x);
        DeleteLeftCase(l, k, r, x);
      } else {
        DeleteMatchCase(l, k, r);
      }
  }

  // ---------------------------------------------------------------------------
  // Height

  /** A path from the root: false goes to the left child, true to the right;
      it must end on a node. */
  predicate IsPath(t: Tree, p: seq<bool>)
  {
    t.Node? && (p == [] || IsPath(if p[0] then t.right else t.left, p[1..]))
  }

  /** The height is the number of nodes on the longest path from the root. */
  lemma {:induction false} HeightIsLongestPath(t: Tree)
    ensures forall p | IsPath(t, p) :: |p| < Height(t)
    ensures t.Node? ==> exists p :: IsPath(t, p) && |p| == Height(t) - 1
  {
    match t
    case Leaf =>
    case Node(l, k, r) =>
      HeightIsLongestPath(l);
      HeightIsLongestPath(r);
      forall p | IsPath(t, p) ensures |p| < Height(t) {
        if p != [] {
          assert IsPath(if p[0] then r else l, p[1..]);
        }
      }
      if Height(r) > Height(l) {
        var q :| IsPath(r, q) && |q| == Height(r) - 1;
        assert ([true] + q)[1..] == q;
        assert IsPath(t, [true] + q);
      } else if l.Node? {
        var q :| IsPath(l, q) && |q| == Height(l) - 1;
        assert ([false] + q)[1..] == q;
        assert IsPath(t, [false] + q);
      } else {
        assert IsPath(t, []);
      }
  }

  // ---------------------------------------------------------------------------
  // Sequences of operations, as the menu issues them

  datatype Op = Ins(key: int) | Del(key: int)

  function Step(t: Tree, op: Op): Tree
  {
    match op
    case Ins(x) => Insert(t, x)
    case Del(x) => Delete(t, x)
  }

  /** The operations applied one after another. */
  function Run(t: Tree, ops: seq<Op>): Tree
    decreases |ops|
  {
    if ops == [] then t else Run(Step(t, ops[0]), ops[1..])
  }

  /** The same operations on a plain set of keys: the reference meaning. */
  function KeysAfter(s: set<int>, ops: seq<Op>): set<int>
    decreases |ops|
  {
    if ops == [] then s
    else KeysAfter(if ops[0].Ins? then s + {ops[0].key} else s - {ops[0].key}, ops[1..])
  }

  /** Starting from an ordered tree, any sequence of insertions and deletions
      keeps the tree ordered and has the effect of the same operations on its
      key set. */
  lemma {:induction false} RunRefinesKeySet(t: Tree, ops: seq<Op>)
    requires Ordered(t)
    ensures Ordered(Run(t, ops))
    ensures Keys(Run(t, ops)) == KeysAfter(Keys(t), ops)
    decreases |ops|
  {
    if ops != [] {
      RunRefinesKeySet(Step(t, ops[0]), ops[1..]);
    }
  }

  /** From the empty tree: the listing ascends, and `find` answers 1 exactly for
      the keys inserted and not deleted since. */
  lemma RunFromEmpty(ops: seq<Op>, x: int)
    ensures StrictlyAscending(InOrder(Run(Leaf, ops)))
    ensures Find(Run(Leaf, ops), x) == 1 <==> x in KeysAfter({}, ops)
  {
    RunRefinesKeySet(Leaf, ops);
    OrderedIffInOrderAscending(Run(Leaf, ops));
  }

  /** Each operation adds at most one node, so the height never exceeds the
      number of operations. */
  lemma {:induction false} RunHeight(t: Tree, ops: seq<Op>)
    ensures Size(Run(t, ops)) <= Size(t) + |ops|
    ensures Height(Run(t, ops)) <= Size(t) + |ops|
    decreases |ops|
  {
    if ops != [] {
      RunHeight(Step(t, ops[0]), ops[1..]);
    }
  }

  /** Inserting 5, 3, 8, 1, 4 into the empty tree builds this shape. */
  lemma ExampleBuild()
    ensures Run(Leaf, [Ins(5), Ins(3), Ins(8), Ins(1), Ins(4)]) ==
            Node(Node(Node(Leaf, 1, Leaf), 3, Node(Leaf, 4, Leaf)), 5, Node(Leaf, 8, Leaf))
  {
    var ops := [Ins(5), Ins(3), Ins(8), Ins(1), Ins(4)];
    assert ops[1..] == [Ins(3), Ins(8), Ins(1), Ins(4)];
    assert ops[1..][1..] == [Ins(8), Ins(1), Ins(4)];
    assert ops[1..][1..][1..] == [Ins(1), Ins(4)];
    assert ops[1..][1..][1..][1..] == [Ins(4)];
  }

  /** On that tree: the in-order listing and the height. */
  lemma ExampleListing()
    ensures var t := Node(Node(Node(Leaf, 1, Leaf), 3, Node(Leaf, 4, Leaf)), 5, Node(Leaf, 8, Leaf));
            InOrder(t) == [1, 3, 4, 5, 8] && Height(t) == 3
  {
    assert InOrder(Node(Node(Leaf, 1, Leaf), 3, Node(Leaf, 4, Leaf))) == [1, 3, 4];
  }

  /** On that tree: a search that succeeds and one that fails. */
  lemma ExampleFind()
    ensures var t := Node(Node(Node(Leaf, 1, Leaf), 3, Node(Leaf, 4, Leaf)), 5, Node(Leaf, 8, Leaf));
            Find(t, 4) == 1 && Find(t, 9) == 0
  {
  }

  /** On that tree: deleting the root, which has two children, moves the
      largest key of the left subtree, 4, up into it. */
  lemma ExampleDeleteRoot()
    ensures var t := Node(Node(Node(Leaf, 1, Leaf), 3, Node(Leaf, 4, Leaf)), 5, Node(Leaf, 8, Leaf));
            Delete(t, 5) == Node(Node(Node(Leaf, 1, Leaf), 3, Leaf), 4, Node(Leaf, 8, Leaf))
  {
    var l := Node(Node(Leaf, 1, Leaf), 3, Node(Leaf, 4, Leaf));
    assert GetMax(l) == Node(Leaf, 4, Leaf);
    assert Delete(l, 4) == Node(Node(Leaf, 1, Leaf), 3, Leaf);
  }

  /** On that tree: deleting a leaf unlinks it and changes nothing else. */
  lemma ExampleDeleteLeaf()
    ensures var t := Node(Node(Node(Leaf, 1, Leaf), 3, Node(Leaf, 4, Leaf)), 5, Node(Leaf, 8, Leaf));
            Delete(t, 1) == Node(Node(Leaf, 3, Node(Leaf, 4, Leaf)), 5, Node(Leaf, 8, Leaf))
  {
    assert Delete(Node(Leaf, 1, Leaf), 1) == Leaf;
  }
}
