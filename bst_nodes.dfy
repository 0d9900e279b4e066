/**
  The same search tree as linked node records updated in place, as the C code
  does it: `insert` and `delete` return the (possibly new) root of a subtree
  and overwrite the child link they descended through, and the two-children
  case of `delete` overwrites a node's key.

  Every node carries, as ghost state, the set of objects of its subtree
  (`Repr`) and the tree value it stands for (`Model`); `Valid()` ties both to
  the links and keys, so each operation is proved to do to `Model` exactly
  what the function of the same name in module Bst does to a tree value.
*/
module BstNodes {
  import Bst

  class TreeNode {
    var data: int
    var left: TreeNode?
    var right: TreeNode?

    ghost var Repr: set<object>
    ghost var Model: Bst.Tree

    /** The subtree rooted here is a strict tree: the two children own
        disjoint sets of nodes, neither contains this node, and Model is the
        value read off the links and keys. */
    ghost predicate Valid()
      reads this, Repr
      decreases Repr
    {
      && this in Repr
      && (left != null ==>
            left in Repr && left.Repr <= Repr && this !in left.Repr && left.Valid())
      && (right != null ==>
            right in Repr && right.Repr <= Repr && this !in right.Repr && right.Valid())
      && (left != null && right != null ==> left.Repr !! right.Repr)
      && Model == Bst.Node(ModelOf(left), data, ModelOf(right))
    }

    /** `newNode`: a node holding `data` with no children. */
    constructor (data: int)
      ensures Valid() && fresh(Repr)
      ensures this.data == data && left == null && right == null
      ensures Model == Bst.Node(Bst.Leaf, data, Bst.Leaf)
    {
      this.data := data;
      left := null;
      right := null;
      Repr := {this};
      Model := Bst.Node(Bst.Leaf, data, Bst.Leaf);
    }

    /** The assignment `root->left = sub`, which makes this node valid again
        once its new left subtree and its right subtree are valid and
        disjoint. */
    method SetLeft(sub: TreeNode?)
      requires sub != null ==> sub.Valid() && this !in sub.Repr
      requires right != null ==> right.Valid() && this !in right.Repr
      requires sub != null && right != null ==> sub.Repr !! right.Repr
      modifies this
      ensures Valid()
      ensures left == sub && right == old(right) && data == old(data)
      ensures Repr == {this} + ReprOf(sub) + ReprOf(right)
      ensures Model == Bst.Node(ModelOf(sub), data, ModelOf(right))
    {
      ghost var rs, ms := ReprOf(sub), ModelOf(sub);
      ghost var rr, mr := ReprOf(right), ModelOf(right);
      Repr := {this} + rs + rr;
      Model := Bst.Node(ms, data, mr);
      left := sub;
    }

    /** The assignment `root->right = sub`. */
    method SetRight(sub: TreeNode?)
      requires left != null ==> left.Valid() && this !in left.Repr
      requires sub != null ==> sub.Valid() && this !in sub.Repr
      requires left != null && sub != null ==> left.Repr !! sub.Repr
      modifies this
      ensures Valid()
      ensures left == old(left) && right == sub && data == old(data)
      ensures Repr == {this} + ReprOf(left) + ReprOf(sub)
      ensures Model == Bst.Node(ModelOf(left), data, ModelOf(sub))
    {
      ghost var rl, ml := ReprOf(left), ModelOf(left);
      ghost var rs, ms := ReprOf(sub), ModelOf(sub);
      Repr := {this} + rl + rs;
      Model := Bst.Node(ml, data, ms);
      right := sub;
    }
  }

  /** The nodes of the subtree a (possibly null) pointer leads to. */
  ghost function ReprOf(n: TreeNode?): set<object>
    reads n
  {
    if n == null then {} else n.Repr
  }

  /** The tree value a (possibly null) pointer stands for. */
  ghost function ModelOf(n: TreeNode?): Bst.Tree
    reads n
  {
    if n == null then Bst.Leaf else n.Model
  }

  /** `insert`: the returned pointer is the old root when there was one, the
      subtree stands for Bst.Insert of the old value, and any node it does not
      already own is new. */
  method Insert(root: TreeNode?, data: int) returns (r: TreeNode)
    requires root != null ==> root.Valid()
    modifies ReprOf(root)
    ensures r.Valid()
    ensures r.Model == Bst.Insert(old(ModelOf(root)), data)
    ensures root != null ==> r == root
    ensures fresh(r.Repr - old(ReprOf(root)))
    decreases ReprOf(root)
  {
    if root == null {
      r := new TreeNode(data);
    } else if data > root.data {
      var sub := Insert(root.right, data);
      root.SetRight(sub);
      r := root;
    } else if data < root.data {
      var sub := Insert(root.left, data);
      root.SetLeft(sub);
      r := root;
    } else {
      r := root;
    }
  }

  /** `getMax`: the rightmost node of a non-empty subtree. */
  function GetMax(root: TreeNode): (m: TreeNode)
    requires root.Valid()
    reads root.Repr
    ensures m in root.Repr && m.Repr <= root.Repr
    ensures m.Valid() && m.right == null
    ensures m.Model == Bst.GetMax(root.Model)
    decreases root.Repr
  {
    if root.right != null then GetMax(root.right) else root
  }

  /** `delete`: the returned pointer leads to a subtree standing for
      Bst.Delete of the old value, made only of nodes the old one owned. It
      is the old root unless that root held the key and had at most one
      child. */
  method Delete(root: TreeNode?, data: int) returns (r: TreeNode?)
    requires root != null ==> root.Valid()
    modifies ReprOf(root)
    ensures r != null ==> r.Valid()
    ensures ModelOf(r) == Bst.Delete(old(ModelOf(root)), data)
    ensures ReprOf(r) <= old(ReprOf(root))
    ensures root != null && data != old(root.data) ==> r == root
    ensures root != null && old(root.left) != null && old(root.right) != null ==> r == root
    decreases ReprOf(root), 1
  {
    if root == null {
      r := root;
      return;
    }
    ghost var t := root.Model;
    if data > root.data {
      var sub := Delete(root.right, data);
      root.SetRight(sub);
      r := root;
      assert Bst.Delete(t, data) == Bst.Node(t.left, t.key, Bst.Delete(t.right, data));
    } else if data < root.data {
      var sub := Delete(root.left, data);
      root.SetLeft(sub);
      r := root;
      assert Bst.Delete(t, data) == Bst.Node(Bst.Delete(t.left, data), t.key, t.right);
    } else if root.left == null && root.right == null {
      // The node itself is released.
      r := null;
    } else if root.left == null {
      r := root.right;
    } else if root.right == null {
      r := root.left;
    } else {
      DeleteAtTwoChildren(root);
      r := root;
    }
  }

  /** The two-children case of `delete`: the node takes over the largest key
      of its left subtree, and that key is then deleted from the left
      subtree. */
  method DeleteAtTwoChildren(root: TreeNode)
    requires root.Valid() && root.left != null && root.right != null
    modifies root.Repr
    ensures root.Valid()
    ensures root.Model == Bst.Delete(old(root.Model), old(root.data))
    ensures root.Repr <= old(root.Repr)
    decreases root.Repr, 0
  {
    ghost var t := root.Model;
    var tmp := GetMax(root.left);
    root.data := tmp.data;
    var sub := Delete(root.left, tmp.data);
    root.SetLeft(sub);
    ghost var m := Bst.GetMax(t.left).key;
    assert Bst.Delete(t, t.key) == Bst.Node(Bst.Delete(t.left, m), m, t.right);
  }

  /** `find`: the descent over the links answers as Bst.Find on the value. */
  function Find(root: TreeNode?, data: int): (r: int)
    requires root != null ==> root.Valid()
    reads if root == null then {} else root.Repr
    ensures r == Bst.Find(ModelOf(root), data)
    decreases ReprOf(root)
  {
    if root == null then 0
    else if data > root.data then Find(root.right, data)
    else if data < root.data then Find(root.left, data)
    // Here data == root.data; the source's last branch after that test cannot be reached.
    else 1
  }

  /** `height`, over the links. */
  function Height(root: TreeNode?): (h: int)
    requires root != null ==> root.Valid()
    reads if root == null then {} else root.Repr
    ensures h == Bst.Height(ModelOf(root))
    decreases ReprOf(root)
  {
    if root == null then 0
    else
      var rightH := Height(root.right);
      var leftH := Height(root.left);
      if rightH > leftH then rightH + 1 else leftH + 1
  }

  /** `inOrder`: the keys in the order it prints them. */
  function InOrder(root: TreeNode?): (s: seq<int>)
    requires root != null ==> root.Valid()
    reads if root == null then {} else root.Repr
    ensures s == Bst.InOrder(ModelOf(root))
    decreases ReprOf(root)
  {
    if root == null then []
    else InOrder(root.left) + [root.data] + InOrder(root.right)
  }

  /** Every node in s comes after its children, which are in s too. */
  ghost predicate ChildrenFirst(s: seq<TreeNode>)
    reads s
  {
    forall i | 0 <= i < |s| ::
      && (s[i].left != null ==> s[i].left in s[..i])
      && (s[i].right != null ==> s[i].right in s[..i])
  }

  ghost predicate Distinct(s: seq<TreeNode>)
  {
    forall i, j | 0 <= i < j < |s| :: s[i] != s[j]
  }

  lemma ChildrenFirstAppend(a: seq<TreeNode>, b: seq<TreeNode>, n: TreeNode)
    requires ChildrenFirst(a) && ChildrenFirst(b)
    requires n.left != null ==> n.left in a
    requires n.right != null ==> n.right in b
    ensures ChildrenFirst(a + b + [n])
  {
    var s := a + b + [n];
    forall i | 0 <= i < |s|
      ensures s[i].left != null ==> s[i].left in s[..i]
      ensures s[i].right != null ==> s[i].right in s[..i]
    {
      if i < |a| {
        assert s[i] == a[i] && s[..i] == a[..i];
      } else if i < |a| + |b| {
        assert s[i] == b[i - |a|] && s[..i] == a + b[..i - |a|];
      } else {
        assert s[i] == n && s[..i] == a + b;
      }
    }
  }

  lemma DistinctAppend(a: seq<TreeNode>, b: seq<TreeNode>, n: TreeNode, A: set<object>, B: set<object>)
    requires Distinct(a) && Distinct(b)
    requires forall x | x in a :: x in A
    requires forall x | x in b :: x in B
    requires A !! B && n !in A && n !in B
    ensures Distinct(a + b + [n])
  {
    var s := a + b + [n];
    forall i, j | 0 <= i < j < |s| ensures s[i] != s[j] {
      if j < |a| {
        assert s[i] == a[i] && s[j] == a[j];
      } else if i >= |a| && j < |a| + |b| {
        assert s[i] == b[i - |a|] && s[j] == b[j - |a|];
      } else if i < |a| {
        assert s[i] == a[i] && a[i] in a;
        if j < |a| + |b| { assert s[j] == b[j - |a|] && b[j - |a|] in b; }
      } else {
        assert s[i] == b[i - |a|] && b[i - |a|] in b;
      }
    }
  }

  /** `purge`: the nodes in the order they are released. Each node is
      released after its children, so every node reachable from the root is
      released; none is released twice, and no node outside the tree is. */
  method Purge(root: TreeNode?) returns (freed: seq<TreeNode>)
    requires root != null ==> root.Valid()
    ensures |freed| == Bst.Size(ModelOf(root))
    ensures root != null ==> root in freed
    ensures forall n | n in freed :: n in ReprOf(root)
    ensures ChildrenFirst(freed)
    ensures Distinct(freed)
    decreases ReprOf(root)
  {
    if root == null {
      freed := [];
    } else {
      var fl := Purge(root.left);
      var fr := Purge(root.right);
      freed := fl + fr + [root];
      ChildrenFirstAppend(fl, fr, root);
      DistinctAppend(fl, fr, root, ReprOf(root.left), ReprOf(root.right));
    }
  }
}
