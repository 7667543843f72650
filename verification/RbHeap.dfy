/**
 The pointer layer of the scheduler's red-black tree.  A store records the links of every
 node; the predicates say which value-level tree or context the links of a store spell out.
 */
module RbHeap {
  import opened RbShape

  class RbNode {
    var color: Color
    var parent: RbNode?
    var left: RbNode?
    var right: RbNode?
    var key: nat

    constructor (k: nat)
      ensures key == k
    {
      color, parent, left, right, key := Red, null, null, null, k;
    }
  }

  type Tr = Tree<RbNode>
  type Cx = Ctx<RbNode>

  datatype Links = Links(parent: RbNode?, left: RbNode?, right: RbNode?, color: Color)
  type Store = map<RbNode, Links>

  ghost function Ptr(t: Tr): RbNode? {
    if t.Leaf? then null else t.item
  }

  /** The node above the hole; p is the node above the whole segment. */
  ghost function Above(c: Cx, p: RbNode?): RbNode? {
    if c.Top? then p else c.item
  }

  /** The links below Ptr(t) spell out t, and its root's parent is p. */
  ghost predicate IsTree(m: Store, t: Tr, p: RbNode?)
    decreases t
  {
    match t
    case Leaf => true
    case Node(l, n, k, r) =>
      n in m && m[n] == Links(p, Ptr(l), Ptr(r), k) && IsTree(m, l, n) && IsTree(m, r, n)
  }

  /** The links from the node `hole` up to `top` spell out c; top's parent is p. */
  ghost predicate IsCtx(m: Store, c: Cx, hole: RbNode?, top: RbNode?, p: RbNode?)
    decreases c
  {
    match c
    case Top => hole == top
    case InLeft(up, n, k, s) =>
      && n in m && m[n] == Links(Above(up, p), hole, Ptr(s), k)
      && IsTree(m, s, n) && IsCtx(m, up, n, top, p)
    case InRight(up, n, k, s) =>
      && n in m && m[n] == Links(Above(up, p), Ptr(s), hole, k)
      && IsTree(m, s, n) && IsCtx(m, up, n, top, p)
  }

  /** The tree seen from one of its subtrees t: the links around the hole and below it. */
  ghost predicate Zipped(m: Store, root: RbNode?, c: Cx, t: Tr) {
    && IsCtx(m, c, Ptr(t), root, null) && IsTree(m, t, Above(c, null))
    && CtxDistinct(c) && Distinct(t) && CtxItems(c) !! Items(t)
  }

  /** The links from the root spell out t. */
  ghost predicate Whole(m: Store, root: RbNode?, t: Tr) {
    IsTree(m, t, null) && Ptr(t) == root && Distinct(t)
  }

  lemma {:induction false} PlugLinks(m: Store, c: Cx, t: Tr, p: RbNode?)
    ensures IsTree(m, Plug(c, t), p)
       <==> IsCtx(m, c, Ptr(t), Ptr(Plug(c, t)), p) && IsTree(m, t, Above(c, p))
    decreases c
  {
    match c
    case Top =>
    case InLeft(up, x, k, s) => PlugLinks(m, up, Node(t, x, k, s), p);
    case InRight(up, x, k, s) => PlugLinks(m, up, Node(s, x, k, t), p);
  }

  lemma {:induction false} CtxTop(m: Store, c: Cx, t: Tr, root: RbNode?, p: RbNode?)
    requires IsCtx(m, c, Ptr(t), root, p)
    ensures Ptr(Plug(c, t)) == root
    decreases c
  {
    match c
    case Top =>
    case InLeft(up, x, k, s) => CtxTop(m, up, Node(t, x, k, s), root, p);
    case InRight(up, x, k, s) => CtxTop(m, up, Node(s, x, k, t), root, p);
  }

  /** Looking at a tree whole or from any of its subtrees is the same claim about the links. */
  lemma ZipWhole(m: Store, root: RbNode?, c: Cx, t: Tr)
    ensures Zipped(m, root, c, t) <==> Whole(m, root, Plug(c, t))
  {
    PlugDistinct(c, t);
    PlugLinks(m, c, t, null);
    if IsCtx(m, c, Ptr(t), root, null) {
      CtxTop(m, c, t, root, null);
    }
  }

  /** Moving the focus one level up. */
  lemma ZipUp(m: Store, root: RbNode?, c: Cx, t: Tr)
    requires !c.Top?
    ensures Zipped(m, root, c, t) <==> Zipped(m, root, c.up, Grow(c, t))
  {
  }

  // ---------- Framing ----------

  ghost predicate Agree(m: Store, m': Store, s: set<RbNode>) {
    forall n :: n in s && n in m ==> n in m' && m'[n] == m[n]
  }

  lemma {:induction false} TreeFrame(m: Store, m': Store, t: Tr, p: RbNode?)
    requires IsTree(m, t, p) && Agree(m, m', Items(t))
    ensures IsTree(m', t, p)
    decreases t
  {
    if t.Node? {
      TreeFrame(m, m', t.left, t.item);
      TreeFrame(m, m', t.right, t.item);
    }
  }

  lemma {:induction false} CtxFrame(m: Store, m': Store, c: Cx, hole: RbNode?, top: RbNode?, p: RbNode?)
    requires IsCtx(m, c, hole, top, p) && Agree(m, m', CtxItems(c))
    ensures IsCtx(m', c, hole, top, p)
    decreases c
  {
    if !c.Top? {
      TreeFrame(m, m', c.sib, c.item);
      CtxFrame(m, m', c.up, c.item, top, p);
    }
  }

  /** Hanging a tree under another parent changes its root node's parent link only. */
  lemma Reparent(m: Store, m': Store, t: Tr, p: RbNode?, q: RbNode?)
    requires IsTree(m, t, p) && Distinct(t) && Agree(m, m', Items(t) - {Ptr(t)})
    requires t.Node? ==> t.item in m' && m'[t.item] == m[t.item].(parent := q)
    ensures IsTree(m', t, q)
  {
    if t.Node? {
      TreeFrame(m, m', t.left, t.item);
      TreeFrame(m, m', t.right, t.item);
    }
  }

  /** Sending the child link that led to the hole elsewhere. */
  ghost function Redirect(m: Store, c: Cx, v: RbNode?): (m': Store)
    requires !c.Top? ==> c.item in m
  {
    match c
    case Top => m
    case InLeft(_, n, _, _) => m[n := m[n].(left := v)]
    case InRight(_, n, _, _) => m[n := m[n].(right := v)]
  }

  lemma RedirectCtx(m: Store, m': Store, c: Cx, u: RbNode?, v: RbNode?, top: RbNode?, p: RbNode?)
    requires IsCtx(m, c, u, top, p) && CtxDistinct(c) && Agree(Redirect(m, c, v), m', CtxItems(c))
    ensures IsCtx(m', c, v, if c.Top? then v else top, p)
  {
    if !c.Top? {
      TreeFrame(m, m', c.sib, c.item);
      CtxFrame(m, m', c.up, c.item, top, p);
    }
  }

  lemma RotDistinct(t: Tr)
    ensures Items(RotL(t)) == Items(t) && Items(RotR(t)) == Items(t)
    ensures Distinct(t) ==> Distinct(RotL(t)) && Distinct(RotR(t))
  {
    if t.Node? && t.right.Node? {
      var y := t.right;
      var lower := Node(t.left, t.item, t.color, y.left);
      assert Items(lower) == Items(t.left) + {t.item} + Items(y.left);
      assert Items(y) == Items(y.left) + {y.item} + Items(y.right);
      assert Distinct(t) ==> Distinct(y) && Distinct(lower);
    }
    if t.Node? && t.left.Node? {
      var y := t.left;
      var lower := Node(y.right, t.item, t.color, t.right);
      assert Items(lower) == Items(y.right) + {t.item} + Items(t.right);
      assert Items(y) == Items(y.left) + {y.item} + Items(y.right);
      assert Distinct(t) ==> Distinct(y) && Distinct(lower);
    }
  }

  /** Painting the node in focus. */
  lemma Recolored(m: Store, m': Store, root: RbNode?, c: Cx, t: Tr, k: Color)
    requires Zipped(m, root, c, t) && t.Node?
    requires t.item in m && m' == m[t.item := m[t.item].(color := k)]
    ensures Zipped(m', root, c, t.(color := k))
  {
    TreeFrame(m, m', t.left, t.item);
    TreeFrame(m, m', t.right, t.item);
    CtxFrame(m, m', c, t.item, root, null);
  }

  // ---------- Rotation, link by link ----------

  ghost predicate Held(m: Store, n: RbNode?) {
    n != null ==> n in m
  }

  /** p and the root after p's child link to u (or the root's) has been sent to v. */
  ghost predicate Relinked(m: Store, m': Store, p: RbNode?, u: RbNode, v: RbNode?, root: RbNode?, root': RbNode?) {
    && (p == null ==> root' == v)
    && (p != null ==>
          && root' == root && p in m && p in m'
          && m'[p] == if m[p].left == u then m[p].(left := v) else m[p].(right := v))
  }

  /** x has the right child y, and the nodes a left rotation writes are apart. */
  ghost predicate CanRotateLeft(m: Store, x: RbNode) {
    && x in m && m[x].right != null && m[x].right in m
    && var y, p := m[x].right, m[x].parent;
       && Held(m, m[y].left) && Held(m, p)
       && y != x && m[y].left != x && m[y].left != y
       && (p != null ==> p != x && p != y && p != m[y].left && (m[p].left == x || m[p].right == x))
  }

  ghost predicate RotatedLeft(m: Store, m': Store, x: RbNode, root: RbNode?, root': RbNode?)
    requires CanRotateLeft(m, x)
  {
    var y, p := m[x].right, m[x].parent;
    var b := m[y].left;
    && m'.Keys == m.Keys
    && m'[x] == m[x].(right := b, parent := y)
    && m'[y] == m[y].(left := x, parent := p)
    && (b != null ==> m'[b] == m[b].(parent := x))
    && Relinked(m, m', p, x, y, root, root')
    && forall n :: n in m && n != x && n != y && n != b && n != p ==> m'[n] == m[n]
  }

  ghost predicate CanRotateRight(m: Store, y: RbNode) {
    && y in m && m[y].left != null && m[y].left in m
    && var x, p := m[y].left, m[y].parent;
       && Held(m, m[x].right) && Held(m, p)
       && x != y && m[x].right != y && m[x].right != x
       && (p != null ==> p != y && p != x && p != m[x].right && (m[p].left == y || m[p].right == y))
  }

  ghost predicate RotatedRight(m: Store, m': Store, y: RbNode, root: RbNode?, root': RbNode?)
    requires CanRotateRight(m, y)
  {
    var x, p := m[y].left, m[y].parent;
    var b := m[x].right;
    && m'.Keys == m.Keys
    && m'[y] == m[y].(left := b, parent := x)
    && m'[x] == m[x].(right := y, parent := p)
    && (b != null ==> m'[b] == m[b].(parent := y))
    && Relinked(m, m', p, y, x, root, root')
    && forall n :: n in m && n != x && n != y && n != b && n != p ==> m'[n] == m[n]
  }

  /** The frame above t: its node, and that its link to t is the one on t's side. */
  lemma AboveLinks(m: Store, root: RbNode?, c: Cx, t: Tr)
    requires Zipped(m, root, c, t) && t.Node?
    ensures t.item in m && m[t.item] == Links(Above(c, null), Ptr(t.left), Ptr(t.right), t.color)
    ensures !c.Top? ==>
      && c.item in m && c.item !in Items(t)
      && (c.InLeft? ==> m[c.item].left == t.item)
      && (c.InRight? ==> m[c.item].right == t.item && m[c.item].left != t.item)
  {
  }

  lemma LeftRotatable(m: Store, root: RbNode?, c: Cx, t: Tr)
    requires Zipped(m, root, c, t) && t.Node? && t.right.Node?
    ensures CanRotateLeft(m, t.item)
  {
    AboveLinks(m, root, c, t);
    assert Distinct(t.right) && IsTree(m, t.right, t.item) && IsTree(m, t.right.left, t.right.item);
  }

  lemma RightRotatable(m: Store, root: RbNode?, c: Cx, t: Tr)
    requires Zipped(m, root, c, t) && t.Node? && t.left.Node?
    ensures CanRotateRight(m, t.item)
  {
    AboveLinks(m, root, c, t);
    assert Distinct(t.left) && IsTree(m, t.left, t.item) && IsTree(m, t.left.right, t.left.item);
  }

  lemma LeftRotation(m: Store, m': Store, root: RbNode?, root': RbNode?, c: Cx, t: Tr)
    requires Zipped(m, root, c, t) && t.Node? && t.right.Node?
    requires CanRotateLeft(m, t.item) && RotatedLeft(m, m', t.item, root, root')
    ensures Zipped(m', root', c, RotL(t))
  {
    AboveLinks(m, root, c, t);
    assert IsTree(m, t.right, t.item) && Distinct(t.right);
    RotDistinct(t);
    assert IsCtx(m', c, t.right.item, root', null) by {
      RedirectCtx(m, m', c, t.item, t.right.item, root, null);
    }
    LeftRotationBelow(m, m', root, root', t, Above(c, null));
  }

  lemma LeftRotationBelow(m: Store, m': Store, root: RbNode?, root': RbNode?, t: Tr, p: RbNode?)
    requires t.Node? && t.right.Node? && IsTree(m, t, p) && Distinct(t) && (p != null ==> p !in Items(t))
    requires CanRotateLeft(m, t.item) && RotatedLeft(m, m', t.item, root, root')
    ensures IsTree(m', RotL(t), p)
  {
    var x, y, a, b, d := t.item, t.right.item, t.left, t.right.left, t.right.right;
    assert IsTree(m, t.right, x) && Distinct(t.right);
    TreeFrame(m, m', a, x);
    Reparent(m, m', b, y, x);
    TreeFrame(m, m', d, y);
    assert IsTree(m', Node(a, x, t.color, b), y);
  }

  lemma RightRotation(m: Store, m': Store, root: RbNode?, root': RbNode?, c: Cx, t: Tr)
    requires Zipped(m, root, c, t) && t.Node? && t.left.Node?
    requires CanRotateRight(m, t.item) && RotatedRight(m, m', t.item, root, root')
    ensures Zipped(m', root', c, RotR(t))
  {
    AboveLinks(m, root, c, t);
    assert IsTree(m, t.left, t.item) && Distinct(t.left);
    RotDistinct(t);
    assert IsCtx(m', c, t.left.item, root', null) by {
      RedirectCtx(m, m', c, t.item, t.left.item, root, null);
    }
    RightRotationBelow(m, m', root, root', t, Above(c, null));
  }

  lemma RightRotationBelow(m: Store, m': Store, root: RbNode?, root': RbNode?, t: Tr, p: RbNode?)
    requires t.Node? && t.left.Node? && IsTree(m, t, p) && Distinct(t) && (p != null ==> p !in Items(t))
    requires CanRotateRight(m, t.item) && RotatedRight(m, m', t.item, root, root')
    ensures IsTree(m', RotR(t), p)
  {
    var y, x, a, b, d := t.item, t.left.item, t.left.left, t.left.right, t.right;
    assert IsTree(m, t.left, y) && Distinct(t.left);
    TreeFrame(m, m', a, x);
    Reparent(m, m', b, x, y);
    TreeFrame(m, m', d, y);
    assert IsTree(m', Node(b, y, t.color, d), x);
  }

  class RbRoot {
    var root: RbNode?
    ghost var tree: Tr
    ghost var nodes: set<RbNode>

    ghost function Snap(): (m: Store)
      reads `nodes, nodes
      ensures m.Keys == nodes
    {
      map n | n in nodes :: Links(n.parent, n.left, n.right, n.color)
    }

    constructor ()
      ensures root == null && tree == Leaf && nodes == {}
    {
      root, tree, nodes := null, Leaf, {};
    }

    method Paint(n: RbNode, k: Color, ghost c: Cx, ghost t: Tr)
      requires t.Node? && t.item == n && Zipped(Snap(), root, c, t)
      modifies nodes`color
      ensures Zipped(Snap(), root, c, t.(color := k))
    {
      ghost var m := Snap();
      n.color := k;
      assert Snap() == m[n := m[n].(color := k)];
      Recolored(m, Snap(), root, c, t, k);
    }

    method RotateLeftLinks(x: RbNode)
      requires CanRotateLeft(Snap(), x)
      modifies `root, nodes`left, nodes`right, nodes`parent
      ensures RotatedLeft(old(Snap()), Snap(), x, old(root), root)
    {
      var y := x.right;
      x.right := y.left;
      if y.left != null { y.left.parent := x; }
      y.parent := x.parent;
      if x.parent == null {
        root := y;
      } else if x == x.parent.left {
        x.parent.left := y;
      } else {
        x.parent.right := y;
      }
      y.left := x;
      x.parent := y;
    }

    method RotateLeft(x: RbNode, ghost c: Cx, ghost t: Tr)
      requires t.Node? && t.item == x && Zipped(Snap(), root, c, t)
      modifies `root, nodes`left, nodes`right, nodes`parent
      ensures Zipped(Snap(), root, c, RotL(t))
    {
      AboveLinks(Snap(), root, c, t);
      if x.right == null { return; }
      LeftRotatable(Snap(), root, c, t);
      RotateLeftLinks(x);
      LeftRotation(old(Snap()), Snap(), old(root), root, c, t);
    }

    method RotateRightLinks(y: RbNode)
      requires CanRotateRight(Snap(), y)
      modifies `root, nodes`left, nodes`right, nodes`parent
      ensures RotatedRight(old(Snap()), Snap(), y, old(root), root)
    {
      var x := y.left;
      y.left := x.right;
      if x.right != null { x.right.parent := y; }
      x.parent := y.parent;
      if y.parent == null {
        root := x;
      } else if y == y.parent.left {
        y.parent.left := x;
      } else {
        y.parent.right := x;
      }
      x.right := y;
      y.parent := x;
    }

    method RotateRight(y: RbNode, ghost c: Cx, ghost t: Tr)
      requires t.Node? && t.item == y && Zipped(Snap(), root, c, t)
      modifies `root, nodes`left, nodes`right, nodes`parent
      ensures Zipped(Snap(), root, c, RotR(t))
    {
      AboveLinks(Snap(), root, c, t);
      if y.left == null { return; }
      RightRotatable(Snap(), root, c, t);
      RotateRightLinks(y);
      RightRotation(old(Snap()), Snap(), old(root), root, c, t);
    }
  }
}
