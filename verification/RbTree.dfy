/**
 The scheduler's red-black tree operations on linked nodes.
 */
module RbTree {
  import opened RbShape
  import opened RbHeap
  import opened RbFix

  /** Painting the root node black, whatever the focus. */
  method PaintRoot(r: RbRoot, ghost t: Tr)
    requires Whole(r.Snap(), r.root, t)
    modifies r.nodes`color
    ensures Whole(r.Snap(), r.root, Blacken(t))
  {
    if r.root != null {
      r.Paint(r.root, Black, Top, t);
    }
  }

  // ---------- Insertion ----------

  /** The nodes around a red node below a red parent, as the fixup loop reads them. */
  lemma Family(r: RbRoot, c: Cx, t: Tr)
    requires Zipped(r.Snap(), r.root, c, t) && t.Node? && !c.Top? && !c.up.Top?
    ensures t.item in r.nodes && c.item in r.nodes && c.up.item in r.nodes
    ensures t.item.parent == c.item && c.item.parent == c.up.item && c.item.color == c.color
    ensures c.up.InLeft? <==> c.up.item.left == c.item
    ensures Ptr(c.up.sib) == if c.up.InLeft? then c.up.item.right else c.up.item.left
    ensures c.up.sib.Node? ==> c.up.sib.item in r.nodes && c.up.sib.item.color == c.up.sib.color
    ensures c.InRight? <==> t.item == c.item.right
    ensures c.InLeft? <==> t.item == c.item.left
  {
    AboveLinks(r.Snap(), r.root, c, t);
    ZipUp(r.Snap(), r.root, c, t);
    AboveLinks(r.Snap(), r.root, c.up, Grow(c, t));
  }

  /** Case 1: parent and uncle black, grandparent red. */
  method PaintFamily(r: RbRoot, parent: RbNode, uncle: RbNode, grandparent: RbNode, ghost c: Cx, ghost t: Tr)
    requires Zipped(r.Snap(), r.root, c, t) && t.Node? && !c.Top? && !c.up.Top? && c.up.sib.Node?
    requires parent == c.item && grandparent == c.up.item && uncle == c.up.sib.item
    modifies r.nodes`color
    ensures var (c', t') := PushBlackness(c, t); Zipped(r.Snap(), r.root, c', t')
  {
    ghost var p, u, up := Grow(c, t), c.up.sib, c.up.up;
    ZipUp(r.Snap(), r.root, c, t);
    r.Paint(parent, Black, c.up, p);
    p := Blacken(p);
    ZipUp(r.Snap(), r.root, c.up, p);
    ghost var cu :=
      if c.up.InLeft? then InRight(up, grandparent, c.up.color, p) else InLeft(up, grandparent, c.up.color, p);
    ZipUp(r.Snap(), r.root, cu, u);
    r.Paint(uncle, Black, cu, u);
    ZipUp(r.Snap(), r.root, cu, Blacken(u));
    r.Paint(grandparent, Red, up, Grow(cu, Blacken(u)));
  }

  /** Case 3, parent a left child. */
  method RotateLineRight(r: RbRoot, parent: RbNode, grandparent: RbNode, ghost c: Cx, ghost t: Tr)
    requires Zipped(r.Snap(), r.root, c, t) && c.InLeft? && c.up.InLeft?
    requires parent == c.item && grandparent == c.up.item
    modifies r`root, r.nodes`left, r.nodes`right, r.nodes`parent, r.nodes`color
    ensures Zipped(r.Snap(), r.root, LineLeft(c), t)
  {
    ghost var up := c.up.up;
    ZipUp(r.Snap(), r.root, c, t);
    r.Paint(parent, Black, c.up, Grow(c, t));
    ghost var p := Node(t, parent, Black, c.sib);
    ZipUp(r.Snap(), r.root, c.up, p);
    r.Paint(grandparent, Red, up, Grow(c.up, p));
    r.RotateRight(grandparent, up, Node(p, grandparent, Red, c.up.sib));
    ZipUp(r.Snap(), r.root, LineLeft(c), t);
  }

  /** Case 3, parent a right child. */
  method RotateLineLeft(r: RbRoot, parent: RbNode, grandparent: RbNode, ghost c: Cx, ghost t: Tr)
    requires Zipped(r.Snap(), r.root, c, t) && c.InRight? && c.up.InRight?
    requires parent == c.item && grandparent == c.up.item
    modifies r`root, r.nodes`left, r.nodes`right, r.nodes`parent, r.nodes`color
    ensures Zipped(r.Snap(), r.root, LineRight(c), t)
  {
    ghost var up := c.up.up;
    ZipUp(r.Snap(), r.root, c, t);
    r.Paint(parent, Black, c.up, Grow(c, t));
    ghost var p := Node(c.sib, parent, Black, t);
    ZipUp(r.Snap(), r.root, c.up, p);
    r.Paint(grandparent, Red, up, Grow(c.up, p));
    r.RotateLeft(grandparent, up, Node(c.up.sib, grandparent, Red, p));
    ZipUp(r.Snap(), r.root, LineRight(c), t);
  }

  /** One turn of the loop when the parent is a left child. */
  method InsertStepLeft(r: RbRoot, n: RbNode, grandparent: RbNode, ghost c0: Cx, ghost t0: Tr)
    returns (node: RbNode, ghost c: Cx, ghost t: Tr)
    requires Zipped(r.Snap(), r.root, c0, t0) && AlmostInserted(c0, t0) && TopRed(c0) && c0.up.InLeft?
    requires n == t0.item && grandparent == c0.up.item
    modifies r`root, r.nodes`left, r.nodes`right, r.nodes`parent, r.nodes`color
    ensures Zipped(r.Snap(), r.root, c, t) && AlmostInserted(c, t) && t.item == node
    ensures Spell(c, t) == Spell(c0, t0)
    ensures TopRed(c) ==> Depth(c) < Depth(c0)
  {
    c, t, node := c0, t0, n;
    Family(r, c, t);
    var parent := node.parent;
    var uncle := grandparent.right;
    if uncle != null && uncle.color == Red {
      PushBlacknessKeeps(c, t);
      PaintFamily(r, parent, uncle, grandparent, c, t);
      c, t := PushBlackness(c0, t0).0, PushBlackness(c0, t0).1;
      node := grandparent;
    } else {
      if node == parent.right {
        UnbendLeftKeeps(c, t);
        ZipUp(r.Snap(), r.root, c, t);
        r.RotateLeft(parent, c.up, Grow(c, t));
        c, t := UnbendLeft(c0, t0).0, UnbendLeft(c0, t0).1;
        ZipUp(r.Snap(), r.root, c, t);
        node := parent;
        Family(r, c, t);
        parent := node.parent;
      }
      LineLeftKeeps(c, t);
      RotateLineRight(r, parent, grandparent, c, t);
      c := LineLeft(c);
    }
  }

  /** One turn of the loop when the parent is a right child. */
  method InsertStepRight(r: RbRoot, n: RbNode, grandparent: RbNode, ghost c0: Cx, ghost t0: Tr)
    returns (node: RbNode, ghost c: Cx, ghost t: Tr)
    requires Zipped(r.Snap(), r.root, c0, t0) && AlmostInserted(c0, t0) && TopRed(c0) && c0.up.InRight?
    requires n == t0.item && grandparent == c0.up.item
    modifies r`root, r.nodes`left, r.nodes`right, r.nodes`parent, r.nodes`color
    ensures Zipped(r.Snap(), r.root, c, t) && AlmostInserted(c, t) && t.item == node
    ensures Spell(c, t) == Spell(c0, t0)
    ensures TopRed(c) ==> Depth(c) < Depth(c0)
  {
    c, t, node := c0, t0, n;
    Family(r, c, t);
    var parent := node.parent;
    var uncle := grandparent.left;
    if uncle != null && uncle.color == Red {
      PushBlacknessKeeps(c, t);
      PaintFamily(r, parent, uncle, grandparent, c, t);
      c, t := PushBlackness(c0, t0).0, PushBlackness(c0, t0).1;
      node := grandparent;
    } else {
      if node == parent.left {
        UnbendRightKeeps(c, t);
        ZipUp(r.Snap(), r.root, c, t);
        r.RotateRight(parent, c.up, Grow(c, t));
        c, t := UnbendRight(c0, t0).0, UnbendRight(c0, t0).1;
        ZipUp(r.Snap(), r.root, c, t);
        node := parent;
        Family(r, c, t);
        parent := node.parent;
      }
      LineRightKeeps(c, t);
      RotateLineLeft(r, parent, grandparent, c, t);
      c := LineRight(c);
    }
  }

  method InsertFixup(r: RbRoot, n: RbNode, ghost c0: Cx, ghost t0: Tr) returns (ghost t': Tr)
    requires Zipped(r.Snap(), r.root, c0, t0) && t0.Node? && t0.item == n && AlmostInserted(c0, t0)
    modifies r`root, r.nodes`left, r.nodes`right, r.nodes`parent, r.nodes`color
    ensures Whole(r.Snap(), r.root, t') && RedBlack(t') && InOrder(t') == Spell(c0, t0)
  {
    var node := n;
    ghost var c, t := c0, t0;
    AboveLinks(r.Snap(), r.root, c, t);
    while node.parent != null && node.parent.color == Red
      invariant t.Node? && t.item == node && node in r.nodes && node.parent == Above(c, null)
      invariant !c.Top? ==> c.item in r.nodes && c.item.color == c.color
      invariant Zipped(r.Snap(), r.root, c, t) && AlmostInserted(c, t)
      invariant Spell(c, t) == Spell(c0, t0)
      decreases if TopRed(c) then 1 + Depth(c) else 0
    {
      HasGrandparent(c, t);
      Family(r, c, t);
      var parent := node.parent;
      var grandparent := parent.parent;
      assert grandparent != null;
      if parent == grandparent.left {
        node, c, t := InsertStepLeft(r, node, grandparent, c, t);
      } else {
        node, c, t := InsertStepRight(r, node, grandparent, c, t);
      }
      AboveLinks(r.Snap(), r.root, c, t);
    }
    InsertDone(c, t);
    ZipWhole(r.Snap(), r.root, c, t);
    PaintRoot(r, Plug(c, t));
    t' := Blacken(Plug(c, t));
  }
  // ---------- Deletion ----------

  ghost function SibCtx(c: Cx, t: Tr): Cx
    requires !c.Top?
  {
    if c.InLeft? then InRight(c.up, c.item, c.color, t) else InLeft(c.up, c.item, c.color, t)
  }

  /** Moving the focus to the sibling. */
  lemma ZipSib(m: Store, root: RbNode?, c: Cx, t: Tr)
    requires !c.Top?
    ensures Zipped(m, root, c, t) <==> Zipped(m, root, SibCtx(c, t), c.sib)
  {
    ZipUp(m, root, c, t);
    ZipUp(m, root, SibCtx(c, t), c.sib);
  }

  /** Painting the sibling. */
  method PaintSib(r: RbRoot, w: RbNode, k: Color, ghost c: Cx, ghost t: Tr)
    requires Zipped(r.Snap(), r.root, c, t) && !c.Top? && c.sib.Node? && c.sib.item == w
    modifies r.nodes`color
    ensures Zipped(r.Snap(), r.root, WithSib(c, c.sib.(color := k)), t)
  {
    ZipSib(r.Snap(), r.root, c, t);
    r.Paint(w, k, SibCtx(c, t), c.sib);
    ZipSib(r.Snap(), r.root, WithSib(c, c.sib.(color := k)), t);
  }

  /** The nodes around a short subtree, as the fixup loop reads them. */
  lemma Siblings(r: RbRoot, c: Cx, t: Tr)
    requires Zipped(r.Snap(), r.root, c, t) && !c.Top? && c.sib.Node?
    ensures c.item in r.nodes && c.item.color == c.color && c.item.parent == Above(c.up, null)
    ensures c.InLeft? ==> c.item.left == Ptr(t) && c.item.right == c.sib.item
    ensures c.InRight? ==> c.item.right == Ptr(t) && c.item.left == c.sib.item
    ensures c.sib.item in r.nodes && c.sib.item.color == c.sib.color
    ensures c.sib.item.left == Ptr(c.sib.left) && c.sib.item.right == Ptr(c.sib.right)
    ensures c.sib.left.Node? ==> c.sib.left.item in r.nodes && c.sib.left.item.color == c.sib.left.color
    ensures c.sib.right.Node? ==> c.sib.right.item in r.nodes && c.sib.right.item.color == c.sib.right.color
  {
    assert IsTree(r.Snap(), c.sib, c.item);
    assert IsTree(r.Snap(), c.sib.left, c.sib.item) && IsTree(r.Snap(), c.sib.right, c.sib.item);
  }

  /** Case 1, hole on the left: the red sibling goes above the parent. */
  method SinkLeftLinks(r: RbRoot, w: RbNode, xParent: RbNode, ghost c: Cx, ghost t: Tr)
    requires Zipped(r.Snap(), r.root, c, t) && c.InLeft? && c.sib.Node? && w == c.sib.item && xParent == c.item
    modifies r`root, r.nodes`left, r.nodes`right, r.nodes`parent, r.nodes`color
    ensures Zipped(r.Snap(), r.root, SinkLeft(c), t)
  {
    PaintSib(r, w, Black, c, t);
    ghost var sib := c.sib.(color := Black);
    ZipUp(r.Snap(), r.root, WithSib(c, sib), t);
    r.Paint(xParent, Red, c.up, Grow(WithSib(c, sib), t));
    r.RotateLeft(xParent, c.up, Node(t, xParent, Red, sib));
    ZipUp(r.Snap(), r.root, SinkLeft(c), t);
    ZipUp(r.Snap(), r.root, SinkLeft(c).up, Grow(SinkLeft(c), t));
  }

  /** Case 3, hole on the left: the sibling turns away from the hole. */
  method TurnLeftLinks(r: RbRoot, w: RbNode, ghost c: Cx, ghost t: Tr)
    requires Zipped(r.Snap(), r.root, c, t) && c.InLeft? && c.sib.Node? && c.sib.left.Node? && w == c.sib.item
    modifies r`root, r.nodes`left, r.nodes`right, r.nodes`parent, r.nodes`color
    ensures Zipped(r.Snap(), r.root, TurnLeft(c), t)
  {
    ghost var cw, sib := SibCtx(c, t), c.sib;
    ZipSib(r.Snap(), r.root, c, t);
    AboveLinks(r.Snap(), r.root, cw, sib);
    ghost var cn := InLeft(cw, sib.item, sib.color, sib.right);
    ZipUp(r.Snap(), r.root, cn, sib.left);
    r.Paint(w.left, Black, cn, sib.left);
    ghost var near := Blacken(sib.left);
    ZipUp(r.Snap(), r.root, cn, near);
    r.Paint(w, Red, cw, Grow(cn, near));
    r.RotateRight(w, cw, Grow(cn, near).(color := Red));
    ZipSib(r.Snap(), r.root, TurnLeft(c), t);
  }

  /** Case 4, hole on the left. */
  method CloseLeftLinks(r: RbRoot, w: RbNode, xParent: RbNode, ghost c: Cx, ghost t: Tr)
    requires Zipped(r.Snap(), r.root, c, t) && c.InLeft? && c.sib.Node? && w == c.sib.item && xParent == c.item
    modifies r`root, r.nodes`left, r.nodes`right, r.nodes`parent, r.nodes`color
    ensures Zipped(r.Snap(), r.root, c.up, CloseLeft(c, t))
  {
    Siblings(r, c, t);
    PaintSib(r, w, xParent.color, c, t);
    ghost var sib := c.sib.(color := c.color);
    ghost var c1 := WithSib(c, sib);
    ZipUp(r.Snap(), r.root, c1, t);
    r.Paint(xParent, Black, c.up, Grow(c1, t));
    ghost var c2 := InLeft(c.up, c.item, Black, sib);
    ZipUp(r.Snap(), r.root, c2, t);
    Siblings(r, c2, t);
    ghost var cw := SibCtx(c2, t);
    ZipSib(r.Snap(), r.root, c2, t);
    ghost var cf := InRight(cw, sib.item, sib.color, sib.left);
    ZipUp(r.Snap(), r.root, cf, sib.right);
    if w.right != null {
      r.Paint(w.right, Black, cf, sib.right);
    }
    ghost var sib' := sib.(right := Blacken(sib.right));
    ZipUp(r.Snap(), r.root, cf, sib'.right);
    ghost var c3 := WithSib(c2, sib');
    ZipSib(r.Snap(), r.root, c3, t);
    ZipUp(r.Snap(), r.root, c3, t);
    r.RotateLeft(xParent, c.up, Grow(c3, t));
  }

  /** Case 1, hole on the right: the red sibling goes above the parent. */
  method SinkRightLinks(r: RbRoot, w: RbNode, xParent: RbNode, ghost c: Cx, ghost t: Tr)
    requires Zipped(r.Snap(), r.root, c, t) && c.InRight? && c.sib.Node? && w == c.sib.item && xParent == c.item
    modifies r`root, r.nodes`left, r.nodes`right, r.nodes`parent, r.nodes`color
    ensures Zipped(r.Snap(), r.root, SinkRight(c), t)
  {
    PaintSib(r, w, Black, c, t);
    ghost var sib := c.sib.(color := Black);
    ZipUp(r.Snap(), r.root, WithSib(c, sib), t);
    r.Paint(xParent, Red, c.up, Grow(WithSib(c, sib), t));
    r.RotateRight(xParent, c.up, Node(sib, xParent, Red, t));
    ZipUp(r.Snap(), r.root, SinkRight(c), t);
    ZipUp(r.Snap(), r.root, SinkRight(c).up, Grow(SinkRight(c), t));
  }

  /** Case 3, hole on the right: the sibling turns away from the hole. */
  method TurnRightLinks(r: RbRoot, w: RbNode, ghost c: Cx, ghost t: Tr)
    requires Zipped(r.Snap(), r.root, c, t) && c.InRight? && c.sib.Node? && c.sib.right.Node? && w == c.sib.item
    modifies r`root, r.nodes`left, r.nodes`right, r.nodes`parent, r.nodes`color
    ensures Zipped(r.Snap(), r.root, TurnRight(c), t)
  {
    ghost var cw, sib := SibCtx(c, t), c.sib;
    ZipSib(r.Snap(), r.root, c, t);
    AboveLinks(r.Snap(), r.root, cw, sib);
    ghost var cn := InRight(cw, sib.item, sib.color, sib.left);
    ZipUp(r.Snap(), r.root, cn, sib.right);
    r.Paint(w.right, Black, cn, sib.right);
    ghost var near := Blacken(sib.right);
    ZipUp(r.Snap(), r.root, cn, near);
    r.Paint(w, Red, cw, Grow(cn, near));
    r.RotateLeft(w, cw, Grow(cn, near).(color := Red));
    ZipSib(r.Snap(), r.root, TurnRight(c), t);
  }

  /** Case 4, hole on the right. */
  method CloseRightLinks(r: RbRoot, w: RbNode, xParent: RbNode, ghost c: Cx, ghost t: Tr)
    requires Zipped(r.Snap(), r.root, c, t) && c.InRight? && c.sib.Node? && w == c.sib.item && xParent == c.item
    modifies r`root, r.nodes`left, r.nodes`right, r.nodes`parent, r.nodes`color
    ensures Zipped(r.Snap(), r.root, c.up, CloseRight(c, t))
  {
    Siblings(r, c, t);
    PaintSib(r, w, xParent.color, c, t);
    ghost var sib := c.sib.(color := c.color);
    ghost var c1 := WithSib(c, sib);
    ZipUp(r.Snap(), r.root, c1, t);
    r.Paint(xParent, Black, c.up, Grow(c1, t));
    ghost var c2 := InRight(c.up, c.item, Black, sib);
    ZipUp(r.Snap(), r.root, c2, t);
    Siblings(r, c2, t);
    ghost var cw := SibCtx(c2, t);
    ZipSib(r.Snap(), r.root, c2, t);
    ghost var cf := InLeft(cw, sib.item, sib.color, sib.right);
    ZipUp(r.Snap(), r.root, cf, sib.left);
    if w.left != null {
      r.Paint(w.left, Black, cf, sib.left);
    }
    ghost var sib' := sib.(left := Blacken(sib.left));
    ZipUp(r.Snap(), r.root, cf, sib'.left);
    ghost var c3 := WithSib(c2, sib');
    ZipSib(r.Snap(), r.root, c3, t);
    ZipUp(r.Snap(), r.root, c3, t);
    r.RotateRight(xParent, c.up, Grow(c3, t));
  }

  /** Cases 3 and 4, hole on the left: some child of the black sibling is red. */
  method FinishLeft(r: RbRoot, w0: RbNode, xParent: RbNode, ghost c0: Cx, ghost t: Tr) returns (ghost t': Tr)
    requires Zipped(r.Snap(), r.root, c0, t) && AlmostErased(c0, t) && c0.InLeft? && !IsRed(t)
    requires c0.sib.Node? && !IsRed(c0.sib) && (IsRed(c0.sib.left) || IsRed(c0.sib.right))
    requires w0 == c0.sib.item && xParent == c0.item
    modifies r`root, r.nodes`left, r.nodes`right, r.nodes`parent, r.nodes`color
    ensures Whole(r.Snap(), r.root, t')
    ensures RedBlack(Blacken(t')) && InOrder(Blacken(t')) == Spell(c0, t)
  {
    var w := w0;
    ghost var c := c0;
    Siblings(r, c, t);
    if w.right == null || w.right.color == Black {
      TurnKeeps(c, t);
      TurnLeftLinks(r, w, c, t);
      c := TurnLeft(c);
      Siblings(r, c, t);
      w := xParent.right;
    }
    CloseKeeps(c, t);
    CloseLeftLinks(r, w, xParent, c, t);
    ZipWhole(r.Snap(), r.root, c.up, CloseLeft(c, t));
    t' := Plug(c.up, CloseLeft(c, t));
  }

  /** Case 1: a red sibling is rotated above the parent, so that the sibling is black. */
  method BlackSiblingLeft(r: RbRoot, xParent: RbNode, ghost c0: Cx, ghost t: Tr) returns (w: RbNode, ghost c: Cx)
    requires Zipped(r.Snap(), r.root, c0, t) && AlmostErased(c0, t) && c0.InLeft? && !IsRed(t) && xParent == c0.item
    modifies r`root, r.nodes`left, r.nodes`right, r.nodes`parent, r.nodes`color
    ensures Zipped(r.Snap(), r.root, c, t) && AlmostErased(c, t) && Spell(c, t) == Spell(c0, t)
    ensures c.InLeft? && c.item == xParent && c.sib.Node? && !IsRed(c.sib) && w == c.sib.item
    ensures (c == c0 || c.color.Red?)
  {
    c := c0;
    HasSibling(c, t);
    Siblings(r, c, t);
    w := xParent.right;
    if w.color == Red {
      SinkKeeps(c, t);
      SinkLeftLinks(r, w, xParent, c, t);
      c := SinkLeft(c);
      Siblings(r, c, t);
      w := xParent.right;
    }
  }

  /** One turn of the loop when the hole is on the left. */
  method EraseStepLeft(r: RbRoot, xParent: RbNode, ghost c0: Cx, ghost t: Tr)
    returns (x': RbNode?, done: bool, ghost c': Cx, ghost t': Tr)
    requires Zipped(r.Snap(), r.root, c0, t) && AlmostErased(c0, t) && c0.InLeft? && !IsRed(t) && xParent == c0.item
    modifies r`root, r.nodes`left, r.nodes`right, r.nodes`parent, r.nodes`color
    ensures Zipped(r.Snap(), r.root, c', t') && x' == Ptr(t')
    ensures !done ==> AlmostErased(c', t') && Spell(c', t') == Spell(c0, t) && t'.Node?
    ensures !done ==> IsRed(t') || Depth(c') < Depth(c0)
    ensures done ==> c'.Top? && RedBlack(Blacken(t')) && InOrder(Blacken(t')) == Spell(c0, t)
  {
    var w;
    ghost var c;
    w, c := BlackSiblingLeft(r, xParent, c0, t);
    Siblings(r, c, t);
    if (w.left == null || w.left.color == Black) && (w.right == null || w.right.color == Black) {
      LiftKeeps(c, t);
      PaintSib(r, w, Red, c, t);
      ZipUp(r.Snap(), r.root, WithSib(c, c.sib.(color := Red)), t);
      x', done, c', t' := xParent, false, c.up, Grow(WithSib(c, c.sib.(color := Red)), t);
    } else {
      t' := FinishLeft(r, w, xParent, c, t);
      x', done, c' := r.root, true, Top;
    }
  }

  /** Cases 3 and 4, hole on the right: some child of the black sibling is red. */
  method FinishRight(r: RbRoot, w0: RbNode, xParent: RbNode, ghost c0: Cx, ghost t: Tr) returns (ghost t': Tr)
    requires Zipped(r.Snap(), r.root, c0, t) && AlmostErased(c0, t) && c0.InRight? && !IsRed(t)
    requires c0.sib.Node? && !IsRed(c0.sib) && (IsRed(c0.sib.left) || IsRed(c0.sib.right))
    requires w0 == c0.sib.item && xParent == c0.item
    modifies r`root, r.nodes`left, r.nodes`right, r.nodes`parent, r.nodes`color
    ensures Whole(r.Snap(), r.root, t')
    ensures RedBlack(Blacken(t')) && InOrder(Blacken(t')) == Spell(c0, t)
  {
    var w := w0;
    ghost var c := c0;
    Siblings(r, c, t);
    if w.left == null || w.left.color == Black {
      TurnKeeps(c, t);
      TurnRightLinks(r, w, c, t);
      c := TurnRight(c);
      Siblings(r, c, t);
      w := xParent.left;
    }
    CloseKeeps(c, t);
    CloseRightLinks(r, w, xParent, c, t);
    ZipWhole(r.Snap(), r.root, c.up, CloseRight(c, t));
    t' := Plug(c.up, CloseRight(c, t));
  }

  /** Case 1: a red sibling is rotated above the parent, so that the sibling is black. */
  method BlackSiblingRight(r: RbRoot, xParent: RbNode, ghost c0: Cx, ghost t: Tr) returns (w: RbNode, ghost c: Cx)
    requires Zipped(r.Snap(), r.root, c0, t) && AlmostErased(c0, t) && c0.InRight? && !IsRed(t) && xParent == c0.item
    modifies r`root, r.nodes`left, r.nodes`right, r.nodes`parent, r.nodes`color
    ensures Zipped(r.Snap(), r.root, c, t) && AlmostErased(c, t) && Spell(c, t) == Spell(c0, t)
    ensures c.InRight? && c.item == xParent && c.sib.Node? && !IsRed(c.sib) && w == c.sib.item
    ensures (c == c0 || c.color.Red?)
  {
    c := c0;
    HasSibling(c, t);
    Siblings(r, c, t);
    w := xParent.left;
    if w.color == Red {
      SinkKeeps(c, t);
      SinkRightLinks(r, w, xParent, c, t);
      c := SinkRight(c);
      Siblings(r, c, t);
      w := xParent.left;
    }
  }

  /** One turn of the loop when the hole is on the right. */
  method EraseStepRight(r: RbRoot, xParent: RbNode, ghost c0: Cx, ghost t: Tr)
    returns (x': RbNode?, done: bool, ghost c': Cx, ghost t': Tr)
    requires Zipped(r.Snap(), r.root, c0, t) && AlmostErased(c0, t) && c0.InRight? && !IsRed(t) && xParent == c0.item
    modifies r`root, r.nodes`left, r.nodes`right, r.nodes`parent, r.nodes`color
    ensures Zipped(r.Snap(), r.root, c', t') && x' == Ptr(t')
    ensures !done ==> AlmostErased(c', t') && Spell(c', t') == Spell(c0, t) && t'.Node?
    ensures !done ==> IsRed(t') || Depth(c') < Depth(c0)
    ensures done ==> c'.Top? && RedBlack(Blacken(t')) && InOrder(Blacken(t')) == Spell(c0, t)
  {
    var w;
    ghost var c;
    w, c := BlackSiblingRight(r, xParent, c0, t);
    Siblings(r, c, t);
    if (w.left == null || w.left.color == Black) && (w.right == null || w.right.color == Black) {
      LiftKeeps(c, t);
      PaintSib(r, w, Red, c, t);
      ZipUp(r.Snap(), r.root, WithSib(c, c.sib.(color := Red)), t);
      x', done, c', t' := xParent, false, c.up, Grow(WithSib(c, c.sib.(color := Red)), t);
    } else {
      t' := FinishRight(r, w, xParent, c, t);
      x', done, c' := r.root, true, Top;
    }
  }

  method EraseFixup(r: RbRoot, x0: RbNode?, xParent0: RbNode?, xIsLeft0: bool, ghost c0: Cx, ghost t0: Tr)
    returns (ghost t': Tr)
    requires Zipped(r.Snap(), r.root, c0, t0) && AlmostErased(c0, t0)
    requires x0 == Ptr(t0) && xParent0 == Above(c0, null) && (!c0.Top? ==> xIsLeft0 == c0.InLeft?)
    modifies r`root, r.nodes`left, r.nodes`right, r.nodes`parent, r.nodes`color
    ensures Whole(r.Snap(), r.root, t') && RedBlack(t') && InOrder(t') == Spell(c0, t0)
  {
    var x, xParent, xIsLeft, done := x0, xParent0, xIsLeft0, false;
    ghost var c, t := c0, t0;
    NotRoot(r, c, t);
    while !done && x != r.root && (x == null || x.color == Black)
      invariant Zipped(r.Snap(), r.root, c, t) && x == Ptr(t) && (x != null ==> x in r.nodes && x.color == t.color)
      invariant x == r.root <==> c.Top?
      invariant !done ==> xParent == Above(c, null) && (!c.Top? ==> xIsLeft == c.InLeft?)
      invariant !done ==> AlmostErased(c, t) && Spell(c, t) == Spell(c0, t0)
      invariant done ==> c.Top? && RedBlack(Blacken(t)) && InOrder(Blacken(t)) == Spell(c0, t0)
      decreases !done, if IsRed(t) then 0 else 1 + Depth(c)
    {
      if xIsLeft {
        x, done, c, t := EraseStepLeft(r, xParent, c, t);
      } else {
        x, done, c, t := EraseStepRight(r, xParent, c, t);
      }
      NotRoot(r, c, t);
      if !done {
        xParent := x.parent;
        if xParent != null { xIsLeft := x == xParent.left; }
      }
    }
    if !done {
      EraseDone(c, t);
    }
    if x != null {
      r.Paint(x, Black, c, t);
    }
    ZipWhole(r.Snap(), r.root, c, Blacken(t));
    t' := Plug(c, Blacken(t));
  }

  lemma NotRoot(r: RbRoot, c: Cx, t: Tr)
    requires Zipped(r.Snap(), r.root, c, t)
    ensures Ptr(t) == r.root <==> c.Top?
    ensures t.Node? ==> t.item in r.nodes && t.item.color == t.color && t.item.parent == Above(c, null)
    ensures t.Node? && !c.Top? ==> c.item in r.nodes && (t.item == c.item.left <==> c.InLeft?)
  {
    PlugDistinct(c, Leaf);
    CtxTop(r.Snap(), c, t, r.root, null);
    OuterItem(c, t);
    if t.Node? {
      AboveLinks(r.Snap(), r.root, c, t);
    }
  }

  lemma {:induction false} OuterItem(c: Cx, t: Tr)
    ensures !c.Top? ==> Plug(c, t).Node? && Plug(c, t).item in CtxItems(c)
    decreases c
  {
    if !c.Top? {
      OuterItem(c.up, Grow(c, t));
    }
  }

  // ---------- Erasing a node ----------

  lemma Transplanted(m: Store, m': Store, root: RbNode?, root': RbNode?, u: RbNode, c: Cx, s: Tr, q: RbNode?)
    requires IsCtx(m, c, u, root, null) && CtxDistinct(c) && u !in CtxItems(c)
    requires IsTree(m, s, q) && Distinct(s) && Items(s) !! CtxItems(c)
    requires Relinked(m, m', Above(c, null), u, Ptr(s), root, root')
    requires s.Node? ==> s.item in m && s.item in m' && m'[s.item] == m[s.item].(parent := Above(c, null))
    requires forall n :: n in m && n != Above(c, null) && n != Ptr(s) ==> n in m' && m'[n] == m[n]
    ensures IsCtx(m', c, Ptr(s), root', null) && IsTree(m', s, Above(c, null))
  {
    assert !c.Top? ==> c.item in m && (c.InLeft? <==> m[c.item].left == u) by {
      if c.InRight? && c.sib.Node? { assert IsTree(m, c.sib, c.item); }
    }
    RedirectCtx(m, m', c, u, Ptr(s), root, null);
    Reparent(m, m', s, q, Above(c, null));
  }

  /** Replaces whatever hangs in the hole below u's parent by the tree s at v. */
  method Transplant(r: RbRoot, u: RbNode, v: RbNode?, ghost c: Cx, ghost s: Tr, ghost q: RbNode?)
    requires IsCtx(r.Snap(), c, u, r.root, null) && CtxDistinct(c)
    requires u in r.nodes && u !in CtxItems(c) && u.parent == Above(c, null)
    requires v == Ptr(s) && IsTree(r.Snap(), s, q) && Distinct(s) && Items(s) !! CtxItems(c)
    modifies r`root, r.nodes`left, r.nodes`right, r.nodes`parent
    ensures IsCtx(r.Snap(), c, v, r.root, null) && IsTree(r.Snap(), s, Above(c, null))
    ensures forall n :: n in r.nodes && n != Above(c, null) && n != v ==> r.Snap()[n] == old(r.Snap())[n]
    ensures v != null && v != Above(c, null) ==>
      v in r.nodes && r.Snap()[v] == old(r.Snap())[v].(parent := Above(c, null))
  {
    ghost var m := r.Snap();
    assert s.Node? ==> s.item in r.nodes;
    assert !c.Top? ==> c.item in r.nodes;
    if u.parent == null {
      r.root := v;
    } else if u == u.parent.left {
      u.parent.left := v;
    } else {
      u.parent.right := v;
    }
    if v != null { v.parent := u.parent; }
    Transplanted(m, r.Snap(), old(r.root), r.root, u, c, s, q);
  }

  lemma Adopted(m: Store, m': Store, root: RbNode?, c: Cx, l: Tr, y: RbNode, k: Color, ky: Color, right: Tr, z: RbNode)
    requires IsCtx(m, c, y, root, null) && CtxDistinct(c)
    requires IsTree(m, l, z) && IsTree(m, Node(Leaf, y, ky, right), Above(c, null))
    requires Distinct(Node(l, y, k, right)) && Items(Node(l, y, k, right)) !! CtxItems(c)
    requires y in m && y in m' && m'[y] == m[y].(left := Ptr(l), color := k)
    requires l.Node? ==> l.item in m && l.item in m' && m'[l.item] == m[l.item].(parent := y)
    requires forall n :: n in m && n != y && n != Ptr(l) ==> n in m' && m'[n] == m[n]
    ensures Zipped(m', root, c, Node(l, y, k, right))
  {
    Reparent(m, m', l, z, y);
    TreeFrame(m, m', right, y);
    CtxFrame(m, m', c, y, root, null);
  }

  /** y, standing where z stood, takes z's left subtree and colour. */
  method AdoptLeft(r: RbRoot, z: RbNode, y: RbNode, ghost c: Cx, ghost l: Tr, ghost ky: Color, ghost right: Tr)
    requires z in r.nodes && z != y && z !in Items(l) && z.left == Ptr(l)
    requires IsCtx(r.Snap(), c, y, r.root, null) && CtxDistinct(c)
    requires IsTree(r.Snap(), l, z) && IsTree(r.Snap(), Node(Leaf, y, ky, right), Above(c, null))
    requires Distinct(Node(l, y, z.color, right)) && Items(Node(l, y, z.color, right)) !! CtxItems(c)
    modifies r.nodes`left, r.nodes`parent, r.nodes`color
    ensures Zipped(r.Snap(), r.root, c, Node(l, y, old(z.color), right))
  {
    ghost var m, k := r.Snap(), z.color;
    y.left := z.left;
    if y.left != null { y.left.parent := y; }
    y.color := z.color;
    Adopted(m, r.Snap(), r.root, c, l, y, k, ky, right, z);
  }

  /** The successor y of z, already freed from its own place and carrying z's right subtree,
      takes z's place, left subtree and colour. */
  method TakePlace(r: RbRoot, z: RbNode, y: RbNode, ghost c: Cx, ghost l: Tr, ghost k: Color, ghost ky: Color,
                   ghost right: Tr, ghost q: RbNode?)
    requires IsCtx(r.Snap(), c, z, r.root, null) && CtxDistinct(c)
    requires z in r.nodes && z !in CtxItems(c) && z.parent == Above(c, null) && z.left == Ptr(l) && z.color == k
    requires IsTree(r.Snap(), l, z) && IsTree(r.Snap(), Node(Leaf, y, ky, right), q)
    requires Distinct(Node(l, y, k, right)) && Items(Node(l, y, k, right)) !! CtxItems(c)
    requires z != y && z !in Items(l)
    modifies r`root, r.nodes`left, r.nodes`right, r.nodes`parent, r.nodes`color
    ensures Zipped(r.Snap(), r.root, c, Node(l, y, k, right))
  {
    ghost var m := r.Snap();
    Transplant(r, z, y, c, Node(Leaf, y, ky, right), q);
    TreeFrame(m, r.Snap(), l, z);
    assert r.Snap()[z] == m[z];
    AdoptLeft(r, z, y, c, l, ky, right);
  }

  ghost predicate SortedByKey(s: seq<RbNode>)
    reads s
  {
    forall i, j :: 0 <= i < j < |s| ==> s[i].key <= s[j].key
  }

  /** The representation invariant: the links spell out a red-black tree of exactly `nodes`,
      with keys ascending in order. */
  ghost predicate Valid(r: RbRoot)
    reads r, r.nodes
  {
    && Whole(r.Snap(), r.root, r.tree) && Items(r.tree) == r.nodes
    && RedBlack(r.tree) && (InOrderItems(r.tree); SortedByKey(InOrder(r.tree)))
  }

  lemma ZipCompose(m: Store, root: RbNode?, inner: Cx, outer: Cx, t: Tr)
    ensures Zipped(m, root, Compose(inner, outer), t) <==> Zipped(m, root, outer, Plug(inner, t))
  {
    ZipWhole(m, root, Compose(inner, outer), t);
    ZipWhole(m, root, outer, Plug(inner, t));
    ComposePlug(inner, outer, t);
  }

  /** After y has left its place deep in z's right subtree, what remains of that subtree is
      hung from y. */
  lemma Carried(m: Store, m': Store, root: RbNode?, c: Cx, l: Tr, z: RbNode, k: Color, rest: Tr, y: RbNode, ky: Color)
    requires Zipped(m, root, c, Node(l, z, k, rest)) && rest.Node?
    requires y in m && m[y].left == null && m[y].color == ky
    requires y != z && y !in Items(l) && y !in Items(rest) && y !in CtxItems(c)
    requires y in m' && m'[y] == m[y].(right := rest.item)
    requires rest.item in m && rest.item in m' && m'[rest.item] == m[rest.item].(parent := y)
    requires forall n :: n in m && n != y && n != rest.item ==> n in m' && m'[n] == m[n]
    ensures IsCtx(m', c, z, root, null) && z in m && z in m' && m'[z] == m[z]
    ensures IsTree(m', l, z) && IsTree(m', Node(Leaf, y, ky, rest), m[y].parent)
  {
    CtxFrame(m, m', c, z, root, null);
    TreeFrame(m, m', l, z);
    Reparent(m, m', rest, z, y);
  }

  /** y and z are apart from each other and from the pieces around them. */
  lemma SuccessorApart(c: Cx, l: Tr, z: RbNode, k: Color, inner: Cx, y: RbNode, ky: Color, yr: Tr)
    requires Distinct(Node(l, z, k, Plug(inner, Node(Leaf, y, ky, yr))))
    requires Items(Node(l, z, k, Plug(inner, Node(Leaf, y, ky, yr)))) !! CtxItems(c)
    ensures y != z && y !in Items(l) && y !in CtxItems(c) && y !in Items(Plug(inner, yr)) && y !in CtxItems(inner)
    ensures z !in Items(l) && z !in Items(Plug(inner, yr)) && z !in CtxItems(c) && z !in Items(yr)
    ensures Distinct(Node(l, y, k, Plug(inner, yr))) && Items(Node(l, y, k, Plug(inner, yr))) !! CtxItems(c)
    ensures !inner.Top? ==> inner.item != z && inner.item in CtxItems(inner)
  {
    var ty := Node(Leaf, y, ky, yr);
    assert Items(ty) == {y} + Items(yr);
    PlugDistinct(inner, ty);
    PlugDistinct(inner, yr);
  }

  method HangRest(r: RbRoot, z: RbNode, y: RbNode, ghost c: Cx, ghost l: Tr, ghost k: Color, ghost rest: Tr,
      ghost ky: Color)
    requires Zipped(r.Snap(), r.root, c, Node(l, z, k, rest)) && rest.Node?
    requires y in r.nodes && y.left == null && y.color == ky
    requires y != z && y !in Items(l) && y !in Items(rest) && y !in CtxItems(c)
    modifies r.nodes`right, r.nodes`parent
    ensures IsCtx(r.Snap(), c, z, r.root, null) && z in r.nodes
    ensures r.Snap()[z] == Links(Above(c, null), Ptr(l), Ptr(rest), k)
    ensures IsTree(r.Snap(), l, z) && IsTree(r.Snap(), Node(Leaf, y, ky, rest), y.parent)
  {
    ghost var m := r.Snap();
    AboveLinks(m, r.root, c, Node(l, z, k, rest));
    assert IsTree(m, rest, z);
    y.right := z.right;
    y.right.parent := y;
    Carried(m, r.Snap(), r.root, c, l, z, k, rest, y, ky);
  }

  /** The case where y is deeper than z's right child. */
  method CarryRest(r: RbRoot, z: RbNode, y: RbNode, ghost c: Cx, ghost l: Tr, ghost k: Color,
                   ghost inner: Cx, ghost ky: Color, ghost yr: Tr)
    returns (ghost q: RbNode?)
    requires Zipped(r.Snap(), r.root, c, Node(l, z, k, Plug(inner, Node(Leaf, y, ky, yr)))) && !inner.Top?
    requires Zipped(r.Snap(), r.root, Compose(inner, InRight(c, z, k, l)), Node(Leaf, y, ky, yr))
    modifies r`root, r.nodes`left, r.nodes`right, r.nodes`parent
    ensures IsCtx(r.Snap(), c, z, r.root, null)
    ensures z in r.nodes && r.Snap()[z] == Links(Above(c, null), Ptr(l), Ptr(Plug(inner, yr)), k)
    ensures IsTree(r.Snap(), l, z) && IsTree(r.Snap(), Node(Leaf, y, ky, Plug(inner, yr)), q)
  {
    ghost var m, ty, cY := r.Snap(), Node(Leaf, y, ky, yr), Compose(inner, InRight(c, z, k, l));
    SuccessorApart(c, l, z, k, inner, y, ky, yr);
    AboveLinks(m, r.root, cY, ty);
    Transplant(r, y, y.right, cY, yr, y);
    ghost var m1, rest := r.Snap(), Plug(inner, yr);
    assert m1[y] == m[y];
    ZipCompose(m1, r.root, inner, InRight(c, z, k, l), yr);
    ZipUp(m1, r.root, InRight(c, z, k, l), rest);
    OuterItem(inner, yr);
    HangRest(r, z, y, c, l, k, rest, ky);
    q := y.parent;
  }

  /** Detaches y, the leftmost node of z's right subtree, leaving that subtree without y
      hanging from y itself. */
  method FreeSuccessor(r: RbRoot, z: RbNode, y: RbNode, ghost c: Cx, ghost l: Tr, ghost k: Color,
                       ghost inner: Cx, ghost ky: Color, ghost yr: Tr)
    returns (xParent: RbNode, xIsLeft: bool, ghost q: RbNode?)
    requires LeftSpine(inner)
    requires Zipped(r.Snap(), r.root, c, Node(l, z, k, Plug(inner, Node(Leaf, y, ky, yr))))
    modifies r`root, r.nodes`left, r.nodes`right, r.nodes`parent
    ensures IsCtx(r.Snap(), c, z, r.root, null)
    ensures z in r.nodes && z.parent == Above(c, null) && z.left == Ptr(l) && z.color == k
    ensures IsTree(r.Snap(), l, z) && IsTree(r.Snap(), Node(Leaf, y, ky, Plug(inner, yr)), q)
    ensures xParent == Above(Compose(inner, InRight(c, y, k, l)), null)
    ensures xIsLeft == Compose(inner, InRight(c, y, k, l)).InLeft?
  {
    ghost var m, ty, cY := r.Snap(), Node(Leaf, y, ky, yr), Compose(inner, InRight(c, z, k, l));
    SuccessorApart(c, l, z, k, inner, y, ky, yr);
    AboveLinks(m, r.root, c, Node(l, z, k, Plug(inner, ty)));
    ZipUp(m, r.root, InRight(c, z, k, l), Plug(inner, ty));
    ZipCompose(m, r.root, inner, InRight(c, z, k, l), ty);
    AboveLinks(m, r.root, cY, ty);
    if y.parent == z {
      xParent, xIsLeft, q := y, false, z;
      assert IsTree(m, yr, y);
      if y.right != null { y.right.parent := y; }
      assert r.Snap() == m;
    } else {
      xParent := y.parent;
      xIsLeft := y == xParent.left;
      q := CarryRest(r, z, y, c, l, k, inner, ky, yr);
    }
  }

  /** `while (y->left) y = y->left` from z's right child. */
  method Leftmost(r: RbRoot, n: RbNode, ghost t: Tr, ghost p: RbNode?)
    returns (y: RbNode, ghost inner: Cx, ghost sub: Tr)
    requires IsTree(r.Snap(), t, p) && t.Node? && t.item == n
    ensures sub.Node? && sub.left.Leaf? && sub.item == y && LeftSpine(inner) && Plug(inner, sub) == t
    ensures y in r.nodes && y.color == sub.color && y.right == Ptr(sub.right)
  {
    ghost var m := r.Snap();
    y := n;
    inner, sub := Top, t;
    while y.left != null
      invariant sub.Node? && sub.item == y && LeftSpine(inner) && Plug(inner, sub) == t
      invariant IsTree(m, sub, Above(inner, p)) && y in r.nodes && y.left == Ptr(sub.left)
      decreases sub
    {
      assert IsTree(m, sub.left, y);
      inner := InLeft(inner, y, sub.color, sub.right);
      sub := sub.left;
      y := y.left;
    }
  }

  /** Takes z, which has two children, out of the tree by moving its successor into its place. */
  method DetachInner(r: RbRoot, z: RbNode, ghost c: Cx, ghost t: Tr)
    returns (x: RbNode?, xParent: RbNode?, xIsLeft: bool, gone: Color, ghost c': Cx, ghost s: Tr,
      ghost before: seq<RbNode>, ghost after: seq<RbNode>)
    requires Zipped(r.Snap(), r.root, c, t) && RedBlack(Plug(c, t))
    requires t.Node? && t.item == z && t.left.Node? && t.right.Node?
    modifies r`root, r.nodes`left, r.nodes`right, r.nodes`parent, r.nodes`color
    ensures Zipped(r.Snap(), r.root, c', s) && x == Ptr(s)
    ensures xParent == Above(c', null) && (!c'.Top? ==> xIsLeft == c'.InLeft?)
    ensures gone.Black? ==> AlmostErased(c', s)
    ensures gone.Red? ==> RedBlack(Plug(c', s))
    ensures Spell(c, t) == before + [z] + after && Spell(c', s) == before + after
  {
    ghost var m, l, k, inner, sub, q := r.Snap(), t.left, t.color, Top, t.right, null;
    AboveLinks(m, r.root, c, t);
    var y;
    y, inner, sub := Leftmost(r, z.right, t.right, z);
    ghost var yr := sub.right;
    assert sub == Node(Leaf, y, sub.color, yr);
    gone := y.color;
    x := y.right;
    SuccessorMoved(c, l, z, k, inner, y, sub.color, yr);
    SuccessorApart(c, l, z, k, inner, y, sub.color, yr);
    xParent, xIsLeft, q := FreeSuccessor(r, z, y, c, l, k, inner, sub.color, yr);
    TakePlace(r, z, y, c, l, k, sub.color, Plug(inner, yr), q);
    ZipUp(r.Snap(), r.root, InRight(c, y, k, l), Plug(inner, yr));
    ZipCompose(r.Snap(), r.root, inner, InRight(c, y, k, l), yr);
    c', s := Compose(inner, InRight(c, y, k, l)), yr;
    before, after := Before(c) + InOrder(l), [y] + InOrder(yr) + After(inner) + After(c);
  }

  /** Takes z out of the tree: directly if it has at most one child, else by its successor. */
  method Detach(r: RbRoot, z: RbNode, ghost c: Cx, ghost t: Tr)
    returns (x: RbNode?, xParent: RbNode?, xIsLeft: bool, gone: Color, ghost c': Cx, ghost s: Tr,
      ghost before: seq<RbNode>, ghost after: seq<RbNode>)
    requires Zipped(r.Snap(), r.root, c, t) && RedBlack(Plug(c, t)) && t.Node? && t.item == z
    modifies r`root, r.nodes`left, r.nodes`right, r.nodes`parent, r.nodes`color
    ensures Zipped(r.Snap(), r.root, c', s) && x == Ptr(s)
    ensures xParent == Above(c', null) && (!c'.Top? ==> xIsLeft == c'.InLeft?)
    ensures gone.Black? ==> AlmostErased(c', s)
    ensures gone.Red? ==> RedBlack(Plug(c', s))
    ensures Spell(c, t) == before + [z] + after && Spell(c', s) == before + after
  {
    AboveLinks(r.Snap(), r.root, c, t);
    UnlinkedSpell(c, t);
    xIsLeft := false;
    gone := z.color;
    if z.left == null {
      x, xParent := z.right, z.parent;
      if xParent != null { xIsLeft := z == xParent.left; }
      Unlinked(c, t, t.right);
      Transplant(r, z, z.right, c, t.right, z);
      c', s, before, after := c, t.right, Before(c), InOrder(t.right) + After(c);
    } else if z.right == null {
      x, xParent := z.left, z.parent;
      if xParent != null { xIsLeft := z == xParent.left; }
      Unlinked(c, t, t.left);
      Transplant(r, z, z.left, c, t.left, z);
      c', s, before, after := c, t.left, Before(c) + InOrder(t.left), After(c);
    } else {
      x, xParent, xIsLeft, gone, c', s, before, after := DetachInner(r, z, c, t);
    }
  }

  method EraseLinks(r: RbRoot, z: RbNode) returns (ghost t': Tr, ghost before: seq<RbNode>, ghost after: seq<RbNode>)
    requires Whole(r.Snap(), r.root, r.tree) && RedBlack(r.tree) && z in Items(r.tree)
    modifies r`root, r.nodes`left, r.nodes`right, r.nodes`parent, r.nodes`color
    ensures Whole(r.Snap(), r.root, t') && RedBlack(t')
    ensures InOrder(r.tree) == before + [z] + after && InOrder(t') == before + after
  {
    ghost var c, t := Focus(r.tree, z, Top);
    ZipWhole(r.Snap(), r.root, c, t);
    PlugInOrder(c, t);
    ghost var c', s;
    var x, xParent, xIsLeft, gone;
    x, xParent, xIsLeft, gone, c', s, before, after := Detach(r, z, c, t);
    if gone == Black {
      t' := EraseFixup(r, x, xParent, xIsLeft, c', s);
    } else {
      t' := Plug(c', s);
      ZipWhole(r.Snap(), r.root, c', s);
      PlugInOrder(c', s);
    }
  }

  method Erase(r: RbRoot, z: RbNode) returns (ghost i: nat)
    requires Valid(r) && z in r.nodes
    modifies r, r.nodes`left, r.nodes`right, r.nodes`parent, r.nodes`color
    ensures Valid(r) && r.nodes == old(r.nodes) - {z}
    ensures i < |old(InOrder(r.tree))| && old(InOrder(r.tree))[i] == z
    ensures InOrder(r.tree) == old(InOrder(r.tree)[..i] + InOrder(r.tree)[i + 1..])
  {
    ghost var was := InOrder(r.tree);
    InOrderItems(r.tree);
    ghost var t', before, after := EraseLinks(r, z);
    i := |before|;
    forall i, j | 0 <= i < j < |was| ensures was[i].key <= was[j].key {
      assert was[i] in Elems(was) && was[j] in Elems(was);
    }
    Record(r, t', z, before, after);
  }

  lemma Removed(t: Tr, t': Tr, s: seq<RbNode>, s': seq<RbNode>, before: seq<RbNode>, z: RbNode, after: seq<RbNode>)
    requires Distinct(t) && s == InOrder(t) && s' == InOrder(t') && s == before + [z] + after && s' == before + after
    ensures Items(t') == Items(t) - {z}
    ensures s[|before|] == z && s' == s[..|before|] + s[|before| + 1..]
  {
    DistinctInOrder(t);
    RemoveOne(s, before, z, after);
    InOrderItems(t);
    InOrderItems(t');
  }

  lemma RemovedSorted(was: seq<RbNode>, s: seq<RbNode>, k: nat)
    requires SortedByKey(was) && k < |was| && s == was[..k] + was[k + 1..]
    ensures SortedByKey(s)
  {
    forall a, b | 0 <= a < b < |s| ensures s[a].key <= s[b].key {
      assert s[a] == was[if a < k then a else a + 1] && s[b] == was[if b < k then b else b + 1];
    }
  }

  /** Records that z has left the tree. */
  ghost method Record(r: RbRoot, t': Tr, z: RbNode, before: seq<RbNode>, after: seq<RbNode>)
    requires Whole(r.Snap(), r.root, t') && RedBlack(t') && Distinct(r.tree) && Items(r.tree) == r.nodes
    requires InOrder(r.tree) == before + [z] + after && InOrder(t') == before + after
    requires SortedByKey(InOrder(r.tree))
    modifies r`tree, r`nodes
    ensures Valid(r) && r.tree == t' && r.nodes == old(r.nodes) - {z}
    ensures old(InOrder(r.tree))[|before|] == z
    ensures InOrder(t') == old(InOrder(r.tree)[..|before|] + InOrder(r.tree)[|before| + 1..])
  {
    var m, was := r.Snap(), InOrder(r.tree);
    Removed(r.tree, t', was, before + after, before, z, after);
    RemovedSorted(was, before + after, |before|);
    r.tree := t';
    r.nodes := r.nodes - {z};
    TreeFrame(m, r.Snap(), t', null);
    InOrderItems(t');
  }

  // ---------- Inserting a node ----------

  ghost predicate AllAtMost(s: seq<RbNode>, k: nat)
    reads s
  {
    forall i :: 0 <= i < |s| ==> s[i].key <= k
  }

  ghost predicate AllAbove(s: seq<RbNode>, k: nat)
    reads s
  {
    forall i :: 0 <= i < |s| ==> k < s[i].key
  }

  /** In a sorted sequence, one node's key decides for everything before or after it. */
  lemma SortedSplit(a: seq<RbNode>, l: seq<RbNode>, x: RbNode, r: seq<RbNode>, b: seq<RbNode>, k: nat)
    requires SortedByKey(a + (l + [x] + r) + b)
    ensures k < x.key ==> AllAbove([x] + r, k)
    ensures x.key <= k ==> AllAtMost(l + [x], k)
    ensures x.key < k ==> forall i :: 0 <= i < |l| ==> l[i].key < k
  {
    var s := a + (l + [x] + r) + b;
    assert s[|a| + |l|] == x;
    assert forall i :: 0 <= i < |l| ==> s[|a| + i] == l[i];
    assert forall i :: 0 <= i < |r| ==> s[|a| + |l| + 1 + i] == r[i];
  }

  /** One step down keeps the bounds on what lies before and after. */
  lemma Descend(c: Cx, t: Tr, k: nat)
    requires t.Node? && SortedByKey(InOrder(Plug(c, t))) && AllAtMost(Before(c), k) && AllAbove(After(c), k)
    ensures k < t.item.key ==> AllAbove([t.item] + InOrder(t.right) + After(c), k)
    ensures t.item.key <= k ==> AllAtMost(Before(c) + InOrder(t.left) + [t.item], k)
  {
    PlugInOrder(c, t);
    SortedSplit(Before(c), InOrder(t.left), t.item, InOrder(t.right), After(c), k);
    assert Before(c) + InOrder(t.left) + [t.item] == Before(c) + (InOrder(t.left) + [t.item]);
  }

  /** Walks down to the empty link where a node with this key belongs. */
  method FindSlot(r: RbRoot, key: nat) returns (parent: RbNode?, goLeft: bool, ghost c: Cx)
    requires Valid(r)
    ensures Plug(c, Leaf) == r.tree && parent == Above(c, null) && (!c.Top? ==> goLeft == c.InLeft?)
    ensures AllAtMost(Before(c), key) && AllAbove(After(c), key)
  {
    var cur := r.root;
    parent, goLeft := null, false;
    c := Top;
    ghost var t, m := r.tree, r.Snap();
    assert SortedByKey(InOrder(r.tree));
    while cur != null
      invariant Plug(c, t) == r.tree && cur == Ptr(t) && IsTree(m, t, parent)
      invariant parent == Above(c, null) && (!c.Top? ==> goLeft == c.InLeft?)
      invariant AllAtMost(Before(c), key) && AllAbove(After(c), key)
      decreases t
    {
      Descend(c, t, key);
      parent := cur;
      if key < parent.key {
        goLeft := true;
        cur := parent.left;
        c, t := InLeft(c, t.item, t.color, t.right), t.left;
      } else {
        goLeft := false;
        cur := parent.right;
        c, t := InRight(c, t.item, t.color, t.left), t.right;
      }
    }
  }

  lemma LeafLinked(m: Store, m': Store, root: RbNode?, c: Cx, node: RbNode)
    requires Zipped(m, root, c, Leaf) && node !in CtxItems(c)
    requires node in m' && m'[node] == Links(Above(c, null), null, null, Red)
    requires !c.Top? ==> c.item in m && c.item in m' && m'[c.item] == Redirect(m, c, node)[c.item]
    requires forall n :: n in m && n != node && n != Above(c, null) ==> n in m' && m'[n] == m[n]
    ensures Zipped(m', if c.Top? then node else root, c, Node(Leaf, node, Red, Leaf))
  {
    RedirectCtx(m, m', c, null, node, root, null);
  }

  /** Hangs a fresh red node in the empty link. */
  method LinkLeaf(r: RbRoot, node: RbNode, parent: RbNode?, goLeft: bool, ghost c: Cx)
    requires Zipped(r.Snap(), r.root, c, Leaf) && node !in r.nodes && CtxItems(c) <= r.nodes
    requires parent == Above(c, null) && (!c.Top? ==> goLeft == c.InLeft?)
    modifies r`root, r`nodes, r.nodes`left, r.nodes`right, node`left, node`right, node`parent, node`color
    ensures r.nodes == old(r.nodes) + {node}
    ensures Zipped(r.Snap(), r.root, c, Node(Leaf, node, Red, Leaf))
  {
    ghost var m := r.Snap();
    assert !c.Top? ==> c.item in r.nodes;
    node.parent := parent;
    node.left := null;
    node.right := null;
    node.color := Red;
    if parent == null {
      r.root := node;
    } else if goLeft {
      parent.left := node;
    } else {
      parent.right := node;
    }
    r.nodes := r.nodes + {node};
    LeafLinked(m, r.Snap(), old(r.root), c, node);
  }

  /** Links the node into the empty link and rebalances. */
  method InsertLinks(r: RbRoot, node: RbNode, parent: RbNode?, goLeft: bool, ghost c: Cx) returns (ghost t': Tr)
    requires Whole(r.Snap(), r.root, r.tree) && RedBlack(r.tree) && Plug(c, Leaf) == r.tree && Items(r.tree) == r.nodes
    requires node !in r.nodes && parent == Above(c, null) && (!c.Top? ==> goLeft == c.InLeft?)
    modifies r`root, r`nodes, r.nodes`left, r.nodes`right, r.nodes`parent, r.nodes`color
    modifies node`left, node`right, node`parent, node`color
    ensures r.nodes == old(r.nodes) + {node}
    ensures Whole(r.Snap(), r.root, t') && RedBlack(t') && InOrder(t') == Before(c) + [node] + After(c)
  {
    ZipWhole(r.Snap(), r.root, c, Leaf);
    PlugBalanced(c, Leaf);
    PlugDistinct(c, Leaf);
    LinkLeaf(r, node, parent, goLeft, c);
    assert InOrder(Node(Leaf, node, Red, Leaf)) == [node];
    t' := InsertFixup(r, node, c, Node(Leaf, node, Red, Leaf));
  }

  method Insert(r: RbRoot, node: RbNode) returns (ghost i: nat)
    requires Valid(r) && node !in r.nodes
    modifies r, r.nodes`left, r.nodes`right, r.nodes`parent, r.nodes`color
    modifies node`left, node`right, node`parent, node`color
    ensures Valid(r) && r.nodes == old(r.nodes) + {node}
    ensures i <= |old(InOrder(r.tree))|
    ensures InOrder(r.tree) == old(InOrder(r.tree)[..i]) + [node] + old(InOrder(r.tree)[i..])
    ensures AllAtMost(old(InOrder(r.tree)[..i]), node.key) && AllAbove(old(InOrder(r.tree)[i..]), node.key)
  {
    ghost var was := InOrder(r.tree);
    ghost var c;
    var parent, goLeft;
    parent, goLeft, c := FindSlot(r, node.key);
    InOrderItems(r.tree);
    SlotSequence(r, c, was, node.key);
    i := |Before(c)|;
    ghost var t' := InsertLinks(r, node, parent, goLeft, c);
    forall i, j | 0 <= i < j < |was| ensures was[i].key <= was[j].key {
      assert was[i] in Elems(was) && was[j] in Elems(was);
    }
    forall j | 0 <= j < |was| ensures if j < i then was[j].key <= node.key else node.key < was[j].key {
      assert was[j] in Elems(was);
    }
    RecordInsert(r, t', node, i, was);
    KeysAround(was, i, node.key);
  }

  lemma KeysAround(was: seq<RbNode>, i: nat, key: nat)
    requires i <= |was| && forall j :: 0 <= j < |was| ==> if j < i then was[j].key <= key else key < was[j].key
    ensures AllAtMost(was[..i], key) && AllAbove(was[i..], key)
  {
  }

  /** Records that the node has joined the tree. */
  ghost method RecordInsert(r: RbRoot, t': Tr, node: RbNode, i: nat, was: seq<RbNode>)
    requires Whole(r.Snap(), r.root, t') && RedBlack(t') && r.nodes == Elems(was) + {node}
    requires i <= |was| && InOrder(t') == was[..i] + [node] + was[i..] && SortedByKey(was)
    requires forall j :: 0 <= j < |was| ==> if j < i then was[j].key <= node.key else node.key < was[j].key
    modifies r`tree
    ensures Valid(r) && r.tree == t'
  {
    InsertedElems(InOrder(t'), was, i, node);
    InsertedSorted(InOrder(t'), was, i, node);
    RecordSorted(r, t');
  }

  ghost method RecordSorted(r: RbRoot, t': Tr)
    requires Whole(r.Snap(), r.root, t') && RedBlack(t') && r.nodes == Elems(InOrder(t')) && SortedByKey(InOrder(t'))
    modifies r`tree
    ensures Valid(r) && r.tree == t'
  {
    InOrderItems(t');
    r.tree := t';
  }

  lemma SlotSequence(r: RbRoot, c: Cx, was: seq<RbNode>, key: nat)
    requires Plug(c, Leaf) == r.tree && was == InOrder(r.tree)
    requires AllAtMost(Before(c), key) && AllAbove(After(c), key)
    ensures |Before(c)| <= |was| && Before(c) == was[..|Before(c)|] && After(c) == was[|Before(c)|..]
    ensures forall j :: 0 <= j < |was| ==> if j < |Before(c)| then was[j].key <= key else key < was[j].key
  {
    PlugInOrder(c, Leaf);
    assert forall j :: |Before(c)| <= j < |was| ==> was[j] == After(c)[j - |Before(c)|];
  }

  lemma InsertedElems(s: seq<RbNode>, was: seq<RbNode>, i: nat, node: RbNode)
    requires i <= |was| && s == was[..i] + [node] + was[i..]
    ensures Elems(s) == Elems(was) + {node}
  {
    var before, after := was[..i], was[i..];
    assert was == before + after && Elems([node]) == {node};
    ElemsJoin(before, after);
    ElemsJoin(before, [node]);
    ElemsJoin(before + [node], after);
  }

  lemma InsertedSorted(s: seq<RbNode>, was: seq<RbNode>, i: nat, node: RbNode)
    requires i <= |was| && s == was[..i] + [node] + was[i..] && SortedByKey(was)
    requires forall j :: 0 <= j < |was| ==> if j < i then was[j].key <= node.key else node.key < was[j].key
    ensures SortedByKey(s)
  {
    forall a, b | 0 <= a < b < |s| ensures s[a].key <= s[b].key {
      assert s[a] == if a < i then was[a] else if a == i then node else was[a - 1];
      assert s[b] == if b < i then was[b] else if b == i then node else was[b - 1];
    }
  }
}
