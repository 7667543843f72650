/**
 Reading the scheduler's tree: the leftmost node, lookup by key, and the in-order successor.
 */
module RbQuery {
  import opened RbShape
  import opened RbHeap
  import opened RbFix
  import opened RbTree

  method FindMin(r: RbRoot) returns (n: RbNode?)
    requires Valid(r)
    ensures n == if InOrder(r.tree) == [] then null else InOrder(r.tree)[0]
  {
    if r.root == null { return null; }
    ghost var inner, sub;
    n, inner, sub := Leftmost(r, r.root, r.tree, null);
    PlugInOrder(inner, sub);
    SpineStart(inner);
  }

  lemma {:induction false} SpineStart(inner: Cx)
    requires LeftSpine(inner)
    ensures Before(inner) == []
  {
    if !inner.Top? { SpineStart(inner.up); }
  }

  /** Finds some node with the key exactly when there is one. */
  method Find(r: RbRoot, key: nat) returns (n: RbNode?)
    requires Valid(r)
    ensures n != null ==> n in r.nodes && n.key == key
    ensures n == null ==> forall i :: 0 <= i < |InOrder(r.tree)| ==> InOrder(r.tree)[i].key != key
  {
    n := r.root;
    ghost var c: Cx, t, m := Top, r.tree, r.Snap();
    assert SortedByKey(InOrder(r.tree));
    while n != null
      invariant Plug(c, t) == r.tree && n == Ptr(t) && IsTree(m, t, Above(c, null))
      invariant forall i :: 0 <= i < |Before(c)| ==> Before(c)[i].key != key
      invariant forall i :: 0 <= i < |After(c)| ==> After(c)[i].key != key
      decreases t
    {
      PlugInOrder(c, t);
      SortedSplit(Before(c), InOrder(t.left), n, InOrder(t.right), After(c), key);
      if key < n.key {
        n := n.left;
        c, t := InLeft(c, t.item, t.color, t.right), t.left;
      } else if key > n.key {
        n := n.right;
        c, t := InRight(c, t.item, t.color, t.left), t.right;
      } else {
        return;
      }
    }
    PlugInOrder(c, t);
  }

  method Next(r: RbRoot, node: RbNode, ghost i: nat) returns (n: RbNode?)
    requires Valid(r) && i < |InOrder(r.tree)| && InOrder(r.tree)[i] == node
    ensures n == if i + 1 < |InOrder(r.tree)| then InOrder(r.tree)[i + 1] else null
  {
    InOrderItems(r.tree);
    assert node in Elems(InOrder(r.tree));
    ghost var c, t := Focus(r.tree, node, Top);
    ZipWhole(r.Snap(), r.root, c, t);
    AboveLinks(r.Snap(), r.root, c, t);
    PlaceInOrder(r.tree, c, t, i);
    if node.right != null {
      ghost var inner, sub;
      n, inner, sub := Leftmost(r, node.right, t.right, node);
      PlugInOrder(inner, sub);
      SpineStart(inner);
      return;
    }
    n := Climb(r, node, c, t);
  }

  /** The focused node sits right after what precedes its subtree. */
  lemma PlaceInOrder(tree: Tr, c: Cx, t: Tr, i: nat)
    requires Distinct(tree) && Plug(c, t) == tree && t.Node?
    requires i < |InOrder(tree)| && InOrder(tree)[i] == t.item
    ensures InOrder(tree)[i + 1..] == InOrder(t.right) + After(c)
  {
    PlugInOrder(c, t);
    DistinctInOrder(tree);
    AroundItem(Before(c), InOrder(t.left), t.item, InOrder(t.right), After(c), InOrder(tree), i);
  }

  lemma AroundItem(a: seq<RbNode>, l: seq<RbNode>, x: RbNode, r: seq<RbNode>, f: seq<RbNode>, s: seq<RbNode>, i: nat)
    requires NoRepeats(s) && s == a + (l + [x] + r) + f && i < |s| && s[i] == x
    ensures s[i + 1..] == r + f
  {
    var k := |a| + |l|;
    assert s[k] == x;
    assert i == k;
  }

  /** `while (parent && node == parent->right)`: up to the first ancestor reached from its left. */
  method Climb(r: RbRoot, start: RbNode, ghost c0: Cx, ghost t0: Tr) returns (parent: RbNode?)
    requires Zipped(r.Snap(), r.root, c0, t0) && t0.Node? && t0.item == start
    ensures parent == if After(c0) == [] then null else After(c0)[0]
  {
    var node := start;
    ghost var c, t := c0, t0;
    AboveLinks(r.Snap(), r.root, c, t);
    parent := node.parent;
    while parent != null && node == parent.right
      invariant Zipped(r.Snap(), r.root, c, t) && t.Node? && t.item == node && node in r.nodes
      invariant parent == Above(c, null) && After(c) == After(c0)
      invariant !c.Top? ==> c.item in r.nodes && (node == c.item.right <==> c.InRight?)
      decreases c
    {
      ZipUp(r.Snap(), r.root, c, t);
      node := parent;
      c, t := c.up, Grow(c, t);
      AboveLinks(r.Snap(), r.root, c, t);
      NotRoot(r, c, t);
      parent := parent.parent;
    }
  }

  /** Starting at the minimum and following Next visits every node once, in key order. */
  method Traverse(r: RbRoot) returns (s: seq<RbNode>)
    requires Valid(r)
    ensures s == InOrder(r.tree) && SortedByKey(s) && Elems(s) == r.nodes && NoRepeats(s)
  {
    assert SortedByKey(InOrder(r.tree));
    s := Visit(r);
    InOrderItems(r.tree);
    DistinctInOrder(r.tree);
  }

  method Visit(r: RbRoot) returns (s: seq<RbNode>)
    requires Valid(r)
    ensures s == InOrder(r.tree)
  {
    ghost var order, i := InOrder(r.tree), 0;
    s := [];
    var n := FindMin(r);
    while n != null
      invariant i <= |order| && s == order[..i] && n == if i < |order| then order[i] else null
      decreases |order| - i
    {
      s := s + [n];
      n := Next(r, n, i);
      i := i + 1;
    }
    assert order[..i] == order;
  }
}
