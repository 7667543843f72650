/**
 The rebalancing steps of insertion and deletion as steps on (context, subtree) pairs, and
 what each step keeps: the in-order sequence, and the red-black conditions everywhere except
 at the one place the fixup loops are still carrying upward.
 */
module RbFix {
  import opened RbShape

  /** The in-order sequence of the whole tree. */
  function Spell<T>(c: Ctx<T>, t: Tree<T>): seq<T> {
    Before(c) + InOrder(t) + After(c)
  }

  function Depth<T>(c: Ctx<T>): nat {
    if c.Top? then 0 else 1 + Depth(c.up)
  }

  lemma SpellUp<T>(c: Ctx<T>, t: Tree<T>)
    requires !c.Top?
    ensures Spell(c.up, Grow(c, t)) == Spell(c, t)
  {
    if c.InLeft? {
      Assoc(Before(c.up), InOrder(t), [c.item] + InOrder(c.sib), After(c.up));
    } else {
      Assoc(Before(c.up), InOrder(c.sib) + [c.item], InOrder(t), After(c.up));
    }
  }

  // ---------- Insertion ----------

  /** Red-black except that t, whose root is red, may hang below a red node. */
  predicate AlmostInserted<T>(c: Ctx<T>, t: Tree<T>) {
    IsRed(t) && Balanced(t) && CtxBalanced(c, BlackHeight(t)) && OuterBlack(c)
  }

  /** With a red parent there is a black grandparent: the fixup loop's early exit is never taken. */
  lemma HasGrandparent<T>(c: Ctx<T>, t: Tree<T>)
    requires AlmostInserted(c, t) && TopRed(c)
    ensures !c.up.Top? && c.up.color.Black? && !IsRed(c.sib) && OuterBlack(c.up.up)
    ensures Balanced(c.up.sib) && BlackHeight(c.up.sib) == BlackHeight(t)
    ensures CtxBalanced(c.up.up, BlackHeight(t) + 1)
  {
    assert CtxBalanced(c.up, BlackHeight(t)) && OuterBlack(c.up);
  }

  /** Uncle red: paint parent and uncle black and grandparent red, and go on from the grandparent. */
  function PushBlackness<T>(c: Ctx<T>, t: Tree<T>): (Ctx<T>, Tree<T>)
    requires !c.Top? && !c.up.Top?
  {
    var g := Grow(WithSib(c.up, Blacken(c.up.sib)), Blacken(Grow(c, t)));
    (c.up.up, g.(color := Red))
  }

  lemma PushBlacknessKeeps<T>(c: Ctx<T>, t: Tree<T>)
    requires AlmostInserted(c, t) && TopRed(c) && !c.up.Top? && IsRed(c.up.sib)
    ensures var (c', t') := PushBlackness(c, t);
      AlmostInserted(c', t') && Spell(c', t') == Spell(c, t)
  {
    HasGrandparent(c, t);
    SpellUp(c, t);
    var p := Grow(c, t);
    SpellUp(c.up, p);
    assert BlackHeight(p) == BlackHeight(t) && BlackHeight(Blacken(p)) == BlackHeight(p) + 1;
    assert Balanced(Blacken(p)) && InOrder(Blacken(p)) == InOrder(p);
    BlackenBalanced(c.up.sib);
  }

  /** Left parent, left child, black uncle: rotate the grandparent right. */
  function LineLeft<T>(c: Ctx<T>): Ctx<T>
    requires c.InLeft? && c.up.InLeft?
  {
    InLeft(c.up.up, c.item, Black, Node(c.sib, c.up.item, Red, c.up.sib))
  }

  function LineRight<T>(c: Ctx<T>): Ctx<T>
    requires c.InRight? && c.up.InRight?
  {
    InRight(c.up.up, c.item, Black, Node(c.up.sib, c.up.item, Red, c.sib))
  }

  lemma LineLeftKeeps<T>(c: Ctx<T>, t: Tree<T>)
    requires AlmostInserted(c, t) && TopRed(c) && c.InLeft? && c.up.InLeft? && !IsRed(c.up.sib)
    ensures AlmostInserted(LineLeft(c), t) && !TopRed(LineLeft(c)) && Spell(LineLeft(c), t) == Spell(c, t)
  {
    HasGrandparent(c, t);
    SpellUp(c, t);
    SpellUp(c.up, Grow(c, t));
    SpellUp(LineLeft(c), t);
    RotInOrder(Grow(c.up, Grow(c, t)));
    var r := RotR(Grow(c.up, Grow(c, t)));
    assert Grow(LineLeft(c), t) == r.(color := Black, right := r.right.(color := Red));
  }

  lemma LineRightKeeps<T>(c: Ctx<T>, t: Tree<T>)
    requires AlmostInserted(c, t) && TopRed(c) && c.InRight? && c.up.InRight? && !IsRed(c.up.sib)
    ensures AlmostInserted(LineRight(c), t) && !TopRed(LineRight(c)) && Spell(LineRight(c), t) == Spell(c, t)
  {
    HasGrandparent(c, t);
    SpellUp(c, t);
    SpellUp(c.up, Grow(c, t));
    SpellUp(LineRight(c), t);
    RotInOrder(Grow(c.up, Grow(c, t)));
    var r := RotL(Grow(c.up, Grow(c, t)));
    assert Grow(LineRight(c), t) == r.(color := Black, left := r.left.(color := Red));
  }

  /** Inner child: rotate the parent so that the parent becomes the outer grandchild. */
  function UnbendLeft<T>(c: Ctx<T>, t: Tree<T>): (Ctx<T>, Tree<T>)
    requires c.InRight? && t.Node?
  {
    (InLeft(c.up, t.item, t.color, t.right), Node(c.sib, c.item, c.color, t.left))
  }

  function UnbendRight<T>(c: Ctx<T>, t: Tree<T>): (Ctx<T>, Tree<T>)
    requires c.InLeft? && t.Node?
  {
    (InRight(c.up, t.item, t.color, t.left), Node(t.right, c.item, c.color, c.sib))
  }

  lemma UnbendLeftKeeps<T>(c: Ctx<T>, t: Tree<T>)
    requires AlmostInserted(c, t) && TopRed(c) && c.InRight?
    ensures var (c', t') := UnbendLeft(c, t);
      AlmostInserted(c', t') && TopRed(c') && Spell(c', t') == Spell(c, t) && c'.up == c.up
  {
    HasGrandparent(c, t);
    var (c', t') := UnbendLeft(c, t);
    SpellUp(c, t);
    SpellUp(c', t');
    RotInOrder(Grow(c, t));
    assert RotL(Grow(c, t)) == Grow(c', t');
  }

  lemma UnbendRightKeeps<T>(c: Ctx<T>, t: Tree<T>)
    requires AlmostInserted(c, t) && TopRed(c) && c.InLeft?
    ensures var (c', t') := UnbendRight(c, t);
      AlmostInserted(c', t') && TopRed(c') && Spell(c', t') == Spell(c, t) && c'.up == c.up
  {
    HasGrandparent(c, t);
    var (c', t') := UnbendRight(c, t);
    SpellUp(c, t);
    SpellUp(c', t');
    RotInOrder(Grow(c, t));
    assert RotR(Grow(c, t)) == Grow(c', t');
  }

  /** Once the parent is not red, painting the root black finishes the insertion. */
  lemma InsertDone<T>(c: Ctx<T>, t: Tree<T>)
    requires AlmostInserted(c, t) && !TopRed(c)
    ensures RedBlack(Blacken(Plug(c, t))) && InOrder(Blacken(Plug(c, t))) == Spell(c, t)
  {
    PlugBalanced(c, t);
    PlugInOrder(c, t);
    BlackenBalanced(Plug(c, t));
  }

  // ---------- Deletion ----------

  /** Red-black except that t is one black node short of what its place needs; t's root may
      also be a red node with a red child, since painting it black is what will repair it. */
  predicate AlmostErased<T>(c: Ctx<T>, t: Tree<T>) {
    Balanced(Blacken(t)) && CtxBalanced(c, BlackHeight(t) + 1) && OuterBlack(c)
  }

  /** Unlinking a node with at most one child: nothing is amiss if it was red, and one black
      node is missing if it was black. */
  lemma Unlinked<T>(c: Ctx<T>, t: Tree<T>, s: Tree<T>)
    requires t.Node? && ((t.left.Leaf? && s == t.right) || (t.right.Leaf? && s == t.left))
    requires RedBlack(Plug(c, t))
    ensures t.color.Black? ==> AlmostErased(c, s)
    ensures t.color.Red? ==> RedBlack(Plug(c, s))
  {
    PlugBalanced(c, t);
    PlugBalanced(c, s);
    assert Balanced(s) && Balanced(Blacken(s));
  }

  lemma UnlinkedSpell<T>(c: Ctx<T>, t: Tree<T>)
    requires t.Node?
    ensures t.left.Leaf? ==>
      && Spell(c, t) == Before(c) + [t.item] + (InOrder(t.right) + After(c))
      && Spell(c, t.right) == Before(c) + (InOrder(t.right) + After(c))
    ensures t.right.Leaf? ==>
      && Spell(c, t) == (Before(c) + InOrder(t.left)) + [t.item] + After(c)
      && Spell(c, t.left) == (Before(c) + InOrder(t.left)) + After(c)
  {
    if t.left.Leaf? {
      assert InOrder(t) == [t.item] + InOrder(t.right);
      Assoc(Before(c), [t.item], InOrder(t.right), After(c));
    }
    if t.right.Leaf? {
      assert InOrder(t) == InOrder(t.left) + [t.item];
      Assoc(Before(c), InOrder(t.left), [t.item], After(c));
    }
  }

  /** Erasing a node with two children: its successor y, leftmost in the right subtree, moves
      into its place.  In order, exactly z is gone; in balance, it is as if y's node had been
      unlinked from where y stood. */
  lemma SuccessorMoved<T>(c: Ctx<T>, l: Tree<T>, z: T, k: Color, inner: Ctx<T>, y: T, ky: Color, yr: Tree<T>)
    requires LeftSpine(inner) && RedBlack(Plug(c, Node(l, z, k, Plug(inner, Node(Leaf, y, ky, yr)))))
    ensures var c' := Compose(inner, InRight(c, y, k, l));
      && (ky.Black? ==> AlmostErased(c', yr)) && (ky.Red? ==> RedBlack(Plug(c', yr)))
      && Spell(c, Node(l, z, k, Plug(inner, Node(Leaf, y, ky, yr)))) ==
        (Before(c) + InOrder(l)) + [z] + ([y] + InOrder(yr) + After(inner) + After(c))
      && Spell(c', yr) == (Before(c) + InOrder(l)) + ([y] + InOrder(yr) + After(inner) + After(c))
  {
    var ty, cz, cy := Node(Leaf, y, ky, yr), InRight(c, z, k, l), InRight(c, y, k, l);
    ComposePlug(inner, cz, ty);
    ComposePlug(inner, cy, ty);
    ExchangeItem(inner, c, z, y, k, l, BlackHeight(ty));
    PlugBalanced(Compose(inner, cz), ty);
    PlugBalanced(Compose(inner, cy), ty);
    Unlinked(Compose(inner, cy), ty, yr);
    SuccessorSpell(c, l, z, k, inner, y, ky, yr);
  }

  lemma SuccessorSpell<T>(c: Ctx<T>, l: Tree<T>, z: T, k: Color, inner: Ctx<T>, y: T, ky: Color, yr: Tree<T>)
    requires LeftSpine(inner)
    ensures Spell(c, Node(l, z, k, Plug(inner, Node(Leaf, y, ky, yr))))
         == (Before(c) + InOrder(l)) + [z] + ([y] + InOrder(yr) + After(inner) + After(c))
    ensures Spell(Compose(inner, InRight(c, y, k, l)), yr)
         == (Before(c) + InOrder(l)) + ([y] + InOrder(yr) + After(inner) + After(c))
  {
    var ty := Node(Leaf, y, ky, yr);
    SpineSpell(inner, InRight(c, y, k, l));
    SpineSpell(inner, Top);
    PlugInOrder(inner, ty);
    assert Compose(inner, Top) == inner by { ComposeTop(inner); }
    assert InOrder(ty) == [y] + InOrder(yr);
    Regroup(Before(c), InOrder(l), z, y, InOrder(yr), After(inner), After(c));
  }

  lemma Regroup<T>(a: seq<T>, l: seq<T>, z: T, y: T, r: seq<T>, n: seq<T>, f: seq<T>)
    ensures a + (l + [z] + ([] + ([y] + r) + n)) + f == (a + l) + [z] + ([y] + r + n + f)
    ensures (a + l + [y]) + r + (n + f) == (a + l) + ([y] + r + n + f)
  {
  }

  lemma {:induction false} ComposeTop<T>(inner: Ctx<T>)
    ensures Compose(inner, Top) == inner
  {
    if !inner.Top? { ComposeTop(inner.up); }
  }

  /** A short black subtree below the root has a sibling node: the "malformed tree" exits are dead. */
  lemma HasSibling<T>(c: Ctx<T>, t: Tree<T>)
    requires AlmostErased(c, t) && !c.Top?
    ensures c.sib.Node?
    ensures IsRed(c.sib) ==> c.sib.left.Node? && c.sib.right.Node? && c.color.Black?
                             && !IsRed(c.sib.left) && !IsRed(c.sib.right)
  {
  }

  /** Red sibling: rotate it above the parent; the new sibling is black. */
  function SinkLeft<T>(c: Ctx<T>): Ctx<T>
    requires c.InLeft? && c.sib.Node?
  {
    InLeft(InLeft(c.up, c.sib.item, Black, c.sib.right), c.item, Red, c.sib.left)
  }

  function SinkRight<T>(c: Ctx<T>): Ctx<T>
    requires c.InRight? && c.sib.Node?
  {
    InRight(InRight(c.up, c.sib.item, Black, c.sib.left), c.item, Red, c.sib.right)
  }

  lemma SinkKeeps<T>(c: Ctx<T>, t: Tree<T>)
    requires AlmostErased(c, t) && !c.Top? && IsRed(c.sib)
    ensures var c' := if c.InLeft? then SinkLeft(c) else SinkRight(c);
      AlmostErased(c', t) && Spell(c', t) == Spell(c, t) && c'.sib.Node? && !IsRed(c'.sib)
  {
    HasSibling(c, t);
    var c' := if c.InLeft? then SinkLeft(c) else SinkRight(c);
    SpellUp(c, t);
    SpellUp(c', t);
    SpellUp(c'.up, Grow(c', t));
    RotInOrder(Grow(c, t));
    var r := if c.InLeft? then RotL(Grow(c, t)) else RotR(Grow(c, t));
    assert InOrder(Grow(c'.up, Grow(c', t))) == InOrder(r);
  }

  /** Black sibling with black children: paint it red and go on from the parent. */
  lemma LiftKeeps<T>(c: Ctx<T>, t: Tree<T>)
    requires AlmostErased(c, t) && !c.Top? && c.sib.Node? && !IsRed(c.sib) && !IsRed(t)
    requires !IsRed(c.sib.left) && !IsRed(c.sib.right)
    ensures var g := Grow(WithSib(c, c.sib.(color := Red)), t);
      AlmostErased(c.up, g) && Spell(c.up, g) == Spell(c, t)
  {
    var c' := WithSib(c, c.sib.(color := Red));
    SpellUp(c', t);
  }

  /** Black sibling, far child black, near child red: rotate the sibling away from the hole. */
  function TurnLeft<T>(c: Ctx<T>): Ctx<T>
    requires c.InLeft? && c.sib.Node? && c.sib.left.Node?
  {
    var w := c.sib;
    InLeft(c.up, c.item, c.color, Node(w.left.left, w.left.item, Black, Node(w.left.right, w.item, Red, w.right)))
  }

  function TurnRight<T>(c: Ctx<T>): Ctx<T>
    requires c.InRight? && c.sib.Node? && c.sib.right.Node?
  {
    var w := c.sib;
    InRight(c.up, c.item, c.color, Node(Node(w.left, w.item, Red, w.right.left), w.right.item, Black, w.right.right))
  }

  /** The sibling after the inner rotation: same nodes in order, same black height, red child outside. */
  lemma TurnedLeft<T>(w: Tree<T>)
    requires w.Node? && !IsRed(w) && Balanced(w) && IsRed(w.left) && !IsRed(w.right)
    ensures var r := Node(w.left.left, w.left.item, Black, Node(w.left.right, w.item, Red, w.right));
      Balanced(r) && BlackHeight(r) == BlackHeight(w) && InOrder(r) == InOrder(w)
  {
    RotInOrder(w);
    var inner := Node(w.left.right, w.item, Red, w.right);
    assert Balanced(w.left) && Balanced(w.right) && Balanced(w.left.left) && Balanced(w.left.right);
    assert Balanced(inner) && BlackHeight(inner) == BlackHeight(w.left.left);
    var r, q := Node(w.left.left, w.left.item, Black, inner), RotR(w);
    assert InOrder(q.right) == InOrder(inner) && InOrder(q) == InOrder(r);
  }

  lemma TurnedRight<T>(w: Tree<T>)
    requires w.Node? && !IsRed(w) && Balanced(w) && IsRed(w.right) && !IsRed(w.left)
    ensures var r := Node(Node(w.left, w.item, Red, w.right.left), w.right.item, Black, w.right.right);
      Balanced(r) && BlackHeight(r) == BlackHeight(w) && InOrder(r) == InOrder(w)
  {
    RotInOrder(w);
    var inner := Node(w.left, w.item, Red, w.right.left);
    assert Balanced(w.left) && Balanced(w.right) && Balanced(w.right.left) && Balanced(w.right.right);
    assert Balanced(inner) && BlackHeight(inner) == BlackHeight(w.right.right);
    var r, q := Node(inner, w.right.item, Black, w.right.right), RotL(w);
    assert InOrder(q.left) == InOrder(inner) && InOrder(q) == InOrder(r);
  }

  lemma TurnKeeps<T>(c: Ctx<T>, t: Tree<T>)
    requires AlmostErased(c, t) && !c.Top? && c.sib.Node? && !IsRed(c.sib)
    requires if c.InLeft? then IsRed(c.sib.left) && !IsRed(c.sib.right)
             else IsRed(c.sib.right) && !IsRed(c.sib.left)
    ensures var c' := if c.InLeft? then TurnLeft(c) else TurnRight(c);
      && AlmostErased(c', t) && Spell(c', t) == Spell(c, t) && c'.sib.Node? && !IsRed(c'.sib)
      && (if c.InLeft? then IsRed(c'.sib.right) else IsRed(c'.sib.left))
  {
    if c.InLeft? { TurnedLeft(c.sib); } else { TurnedRight(c.sib); }
  }

  /** Black sibling with a red far child: one rotation at the parent supplies the missing black. */
  function CloseLeft<T>(c: Ctx<T>, t: Tree<T>): Tree<T>
    requires c.InLeft? && c.sib.Node?
  {
    Node(Node(t, c.item, Black, c.sib.left), c.sib.item, c.color, Blacken(c.sib.right))
  }

  function CloseRight<T>(c: Ctx<T>, t: Tree<T>): Tree<T>
    requires c.InRight? && c.sib.Node?
  {
    Node(Blacken(c.sib.left), c.sib.item, c.color, Node(c.sib.right, c.item, Black, t))
  }

  lemma CloseBalanced<T>(c: Ctx<T>, t: Tree<T>)
    requires AlmostErased(c, t) && !c.Top? && c.sib.Node? && !IsRed(c.sib) && !IsRed(t)
    requires if c.InLeft? then IsRed(c.sib.right) else IsRed(c.sib.left)
    ensures var g := if c.InLeft? then CloseLeft(c, t) else CloseRight(c, t);
      Balanced(g) && BlackHeight(g) == BlackHeight(t) + 1 + (if c.color.Black? then 1 else 0) &&
        IsRed(g) == c.color.Red?
  {
    var h, near, far :=
      BlackHeight(t), if c.InLeft? then c.sib.left else c.sib.right, if c.InLeft? then c.sib.right else c.sib.left;
    assert Balanced(t) && Balanced(near) && Balanced(far) && BlackHeight(near) == h && BlackHeight(far) == h;
    BlackenBalanced(far);
    var inner := if c.InLeft? then Node(t, c.item, Black, near) else Node(near, c.item, Black, t);
    assert Balanced(inner) && BlackHeight(inner) == h + 1;
  }

  lemma CloseKeeps<T>(c: Ctx<T>, t: Tree<T>)
    requires AlmostErased(c, t) && !c.Top? && c.sib.Node? && !IsRed(c.sib) && !IsRed(t)
    requires if c.InLeft? then IsRed(c.sib.right) else IsRed(c.sib.left)
    ensures var g := if c.InLeft? then CloseLeft(c, t) else CloseRight(c, t);
      && RedBlack(Blacken(Plug(c.up, g))) && InOrder(Blacken(Plug(c.up, g))) == Spell(c, t)
  {
    var g := if c.InLeft? then CloseLeft(c, t) else CloseRight(c, t);
    CloseBalanced(c, t);
    SpellUp(c, t);
    RotInOrder(Grow(c, t));
    var r := if c.InLeft? then RotL(Grow(c, t)) else RotR(Grow(c, t));
    assert InOrder(g) == InOrder(r);
    PlugBalanced(c.up, g);
    PlugInOrder(c.up, g);
    BlackenBalanced(Plug(c.up, g));
  }

  /** At the root, or at a red node, painting the node black finishes the deletion. */
  lemma EraseDone<T>(c: Ctx<T>, t: Tree<T>)
    requires AlmostErased(c, t) && (c.Top? || IsRed(t))
    ensures RedBlack(Plug(c, Blacken(t))) && InOrder(Plug(c, Blacken(t))) == Spell(c, t)
  {
    PlugBalanced(c, Blacken(t));
    PlugInOrder(c, Blacken(t));
  }
}
