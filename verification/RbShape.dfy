/**
 The value-level theory of red-black trees that the scheduler's tree is measured against:
 trees, one-hole contexts (the path from a node up to the root), their in-order sequences,
 and the red-black balance conditions on both.  Nothing here mentions pointers.
 */
module RbShape {

  datatype Color = Red | Black

  datatype Tree<T> = Leaf | Node(left: Tree<T>, item: T, color: Color, right: Tree<T>)

  /** A tree with one subtree missing.  The frame nearest the hole is outermost in the datatype. */
  datatype Ctx<T> =
    | Top
    | InLeft(up: Ctx<T>, item: T, color: Color, sib: Tree<T>)
    | InRight(up: Ctx<T>, item: T, color: Color, sib: Tree<T>)

  function InOrder<T>(t: Tree<T>): seq<T> {
    match t
    case Leaf => []
    case Node(l, x, _, r) => InOrder(l) + [x] + InOrder(r)
  }

  /** Items that come before the hole in order. */
  function Before<T>(c: Ctx<T>): seq<T> {
    match c
    case Top => []
    case InLeft(up, _, _, _) => Before(up)
    case InRight(up, x, _, s) => Before(up) + InOrder(s) + [x]
  }

  /** Items that come after the hole in order. */
  function After<T>(c: Ctx<T>): seq<T> {
    match c
    case Top => []
    case InLeft(up, x, _, s) => [x] + InOrder(s) + After(up)
    case InRight(up, _, _, _) => After(up)
  }

  function Plug<T>(c: Ctx<T>, t: Tree<T>): Tree<T>
    decreases c
  {
    match c
    case Top => t
    case InLeft(up, x, k, s) => Plug(up, Node(t, x, k, s))
    case InRight(up, x, k, s) => Plug(up, Node(s, x, k, t))
  }

  /** The subtree one level up from the hole. */
  function Grow<T>(c: Ctx<T>, t: Tree<T>): Tree<T>
    requires !c.Top?
  {
    if c.InLeft? then Node(t, c.item, c.color, c.sib) else Node(c.sib, c.item, c.color, t)
  }

  function WithSib<T>(c: Ctx<T>, s: Tree<T>): Ctx<T>
    requires !c.Top?
  {
    if c.InLeft? then InLeft(c.up, c.item, c.color, s) else InRight(c.up, c.item, c.color, s)
  }

  function Items<T>(t: Tree<T>): set<T> {
    match t
    case Leaf => {}
    case Node(l, x, _, r) => Items(l) + {x} + Items(r)
  }

  function CtxItems<T>(c: Ctx<T>): set<T> {
    match c
    case Top => {}
    case InLeft(up, x, _, s) => CtxItems(up) + {x} + Items(s)
    case InRight(up, x, _, s) => CtxItems(up) + {x} + Items(s)
  }

  predicate Distinct<T(==)>(t: Tree<T>) {
    match t
    case Leaf => true
    case Node(l, x, _, r) =>
      && Distinct(l) && Distinct(r)
      && x !in Items(l) && x !in Items(r) && Items(l) !! Items(r)
  }

  predicate CtxDistinct<T(==)>(c: Ctx<T>) {
    match c
    case Top => true
    case InLeft(up, x, _, s) =>
      CtxDistinct(up) && Distinct(s) && x !in Items(s) && x !in CtxItems(up) && Items(s) !! CtxItems(up)
    case InRight(up, x, _, s) =>
      CtxDistinct(up) && Distinct(s) && x !in Items(s) && x !in CtxItems(up) && Items(s) !! CtxItems(up)
  }

  // ---------- Balance ----------

  predicate IsRed<T>(t: Tree<T>) {
    t.Node? && t.color.Red?
  }

  function BlackHeight<T>(t: Tree<T>): nat {
    match t
    case Leaf => 0
    case Node(l, _, k, _) => BlackHeight(l) + (if k.Black? then 1 else 0)
  }

  /** Equal black heights everywhere and no red node with a red child; the root may be red. */
  predicate Balanced<T>(t: Tree<T>) {
    match t
    case Leaf => true
    case Node(l, _, k, r) =>
      && Balanced(l) && Balanced(r) && BlackHeight(l) == BlackHeight(r)
      && (k.Red? ==> !IsRed(l) && !IsRed(r))
  }

  predicate RedBlack<T>(t: Tree<T>) {
    Balanced(t) && !IsRed(t)
  }

  predicate TopRed<T>(c: Ctx<T>) {
    !c.Top? && c.color.Red?
  }

  /** A balanced subtree of black height h fits the hole (a red one only below a black frame). */
  predicate CtxBalanced<T>(c: Ctx<T>, h: nat) {
    match c
    case Top => true
    case InLeft(up, _, k, s) =>
      && Balanced(s) && BlackHeight(s) == h
      && (k.Red? ==> !IsRed(s) && !TopRed(up))
      && CtxBalanced(up, if k.Black? then h + 1 else h)
    case InRight(up, _, k, s) =>
      && Balanced(s) && BlackHeight(s) == h
      && (k.Red? ==> !IsRed(s) && !TopRed(up))
      && CtxBalanced(up, if k.Black? then h + 1 else h)
  }

  /** The frame farthest from the hole, if there is one, is black. */
  predicate OuterBlack<T>(c: Ctx<T>) {
    !c.Top? ==> if c.up.Top? then c.color.Black? else OuterBlack(c.up)
  }

  function Blacken<T>(t: Tree<T>): Tree<T> {
    if t.Leaf? then t else t.(color := Black)
  }

  // ---------- Rotations ----------

  function RotL<T>(t: Tree<T>): Tree<T> {
    if t.Node? && t.right.Node? then
      var y := t.right;
      Node(Node(t.left, t.item, t.color, y.left), y.item, y.color, y.right)
    else t
  }

  function RotR<T>(t: Tree<T>): Tree<T> {
    if t.Node? && t.left.Node? then
      var x := t.left;
      Node(x.left, x.item, x.color, Node(x.right, t.item, t.color, t.right))
    else t
  }

  lemma RotInOrder<T>(t: Tree<T>)
    ensures InOrder(RotL(t)) == InOrder(t) && InOrder(RotR(t)) == InOrder(t)
  {
    if t.Node? && t.right.Node? {
      var y := t.right;
      assert InOrder(t.left) + [t.item] + (InOrder(y.left) + [y.item] + InOrder(y.right))
          == (InOrder(t.left) + [t.item] + InOrder(y.left)) + [y.item] + InOrder(y.right);
    }
    if t.Node? && t.left.Node? {
      var x := t.left;
      assert (InOrder(x.left) + [x.item] + InOrder(x.right)) + [t.item] + InOrder(t.right)
          == InOrder(x.left) + [x.item] + (InOrder(x.right) + [t.item] + InOrder(t.right));
    }
  }

  // ---------- Plugging ----------

  lemma Assoc<T>(a: seq<T>, b: seq<T>, c: seq<T>, d: seq<T>)
    ensures a + (b + c) + d == a + b + (c + d) == a + b + c + d
  {
  }

  lemma {:induction false} PlugInOrder<T>(c: Ctx<T>, t: Tree<T>)
    ensures InOrder(Plug(c, t)) == Before(c) + InOrder(t) + After(c)
    decreases c
  {
    match c
    case Top =>
    case InLeft(up, x, k, s) =>
      PlugInOrder(up, Node(t, x, k, s));
      Assoc(Before(up), InOrder(t), [x] + InOrder(s), After(up));
    case InRight(up, x, k, s) =>
      PlugInOrder(up, Node(s, x, k, t));
      Assoc(Before(up), InOrder(s) + [x], InOrder(t), After(up));
  }

  lemma {:induction false} PlugDistinct<T>(c: Ctx<T>, t: Tree<T>)
    ensures Items(Plug(c, t)) == CtxItems(c) + Items(t)
    ensures Distinct(Plug(c, t)) <==> CtxDistinct(c) && Distinct(t) && CtxItems(c) !! Items(t)
    decreases c
  {
    match c
    case Top =>
    case InLeft(up, x, k, s) => PlugDistinct(up, Node(t, x, k, s));
    case InRight(up, x, k, s) => PlugDistinct(up, Node(s, x, k, t));
  }

  /** A balanced subtree of the right height in a balanced context makes a red-black tree, and
      every way of cutting a red-black tree into context and subtree arises so. */
  lemma {:induction false} PlugBalanced<T>(c: Ctx<T>, t: Tree<T>)
    ensures Balanced(Plug(c, t))
       <==> CtxBalanced(c, BlackHeight(t)) && Balanced(t) && !(TopRed(c) && IsRed(t))
    ensures !c.Top? ==> (OuterBlack(c) <==> !IsRed(Plug(c, t)))
    decreases c
  {
    match c
    case Top =>
    case InLeft(up, x, k, s) => PlugBalanced(up, Node(t, x, k, s));
    case InRight(up, x, k, s) => PlugBalanced(up, Node(s, x, k, t));
  }

  /** Every item of a tree can be brought into focus. */
  lemma {:induction false} Focus<T>(t: Tree<T>, x: T, c: Ctx<T>) returns (c': Ctx<T>, t': Tree<T>)
    requires x in Items(t)
    ensures t'.Node? && t'.item == x && Plug(c', t') == Plug(c, t)
    decreases t
  {
    if t.item == x {
      c', t' := c, t;
    } else if x in Items(t.left) {
      c', t' := Focus(t.left, x, InLeft(c, t.item, t.color, t.right));
    } else {
      c', t' := Focus(t.right, x, InRight(c, t.item, t.color, t.left));
    }
  }

  function Elems<T>(s: seq<T>): set<T> {
    set x | x in s
  }

  lemma ElemsJoin<T>(a: seq<T>, b: seq<T>)
    ensures Elems(a + b) == Elems(a) + Elems(b)
  {
  }

  lemma {:induction false} InOrderItems<T>(t: Tree<T>)
    ensures Elems(InOrder(t)) == Items(t)
  {
    if t.Node? {
      InOrderItems(t.left);
      InOrderItems(t.right);
      ElemsJoin(InOrder(t.left), [t.item]);
      ElemsJoin(InOrder(t.left) + [t.item], InOrder(t.right));
    }
  }

  predicate NoRepeats<T(==)>(s: seq<T>) {
    forall i, j :: 0 <= i < j < |s| ==> s[i] != s[j]
  }

  lemma {:induction false} DistinctInOrder<T>(t: Tree<T>)
    requires Distinct(t)
    ensures NoRepeats(InOrder(t))
  {
    if t.Node? {
      DistinctInOrder(t.left);
      DistinctInOrder(t.right);
      InOrderItems(t.left);
      InOrderItems(t.right);
      JoinNoRepeats(InOrder(t.left), t.item, InOrder(t.right));
    }
  }

  lemma JoinNoRepeats<T>(a: seq<T>, x: T, b: seq<T>)
    requires NoRepeats(a) && NoRepeats(b) && x !in Elems(a) && x !in Elems(b) && Elems(a) !! Elems(b)
    ensures NoRepeats(a + [x] + b)
  {
    var s := a + [x] + b;
    forall i, j | 0 <= i < j < |s| ensures s[i] != s[j] {
      if j <= |a| {
        assert s[i] == a[i] && a[i] in Elems(a);
      } else {
        assert s[j] == b[j - |a| - 1] && b[j - |a| - 1] in Elems(b);
        if i < |a| {
          assert s[i] == a[i] && a[i] in Elems(a);
        } else if i > |a| {
          assert s[i] == b[i - |a| - 1];
        }
      }
    }
  }

  lemma RemoveOne<T>(s: seq<T>, a: seq<T>, x: T, b: seq<T>)
    requires NoRepeats(s) && s == a + [x] + b
    ensures s[|a|] == x && a + b == s[..|a|] + s[|a| + 1..]
    ensures Elems(a + b) == Elems(s) - {x}
  {
    assert s[|a|] == x;
    forall i | 0 <= i < |a| ensures a[i] != x {
      assert s[i] == a[i];
    }
    forall i | 0 <= i < |b| ensures b[i] != x {
      assert s[|a| + 1 + i] == b[i];
    }
    assert a == s[..|a|] && b == s[|a| + 1..];
    ElemsJoin(a, b);
    ElemsJoin(a, [x]);
    ElemsJoin(a + [x], b);
    assert Elems([x]) == {x};
  }

  lemma BlackenBalanced<T>(t: Tree<T>)
    requires Balanced(t)
    ensures RedBlack(Blacken(t)) && InOrder(Blacken(t)) == InOrder(t) && Items(Blacken(t)) == Items(t)
    ensures BlackHeight(Blacken(t)) == BlackHeight(t) + (if IsRed(t) then 1 else 0)
  {
  }

  // ---------- Composing contexts ----------

  function Compose<T>(inner: Ctx<T>, outer: Ctx<T>): Ctx<T>
    decreases inner
  {
    match inner
    case Top => outer
    case InLeft(up, x, k, s) => InLeft(Compose(up, outer), x, k, s)
    case InRight(up, x, k, s) => InRight(Compose(up, outer), x, k, s)
  }

  /** Every frame goes down to the left. */
  predicate LeftSpine<T>(c: Ctx<T>) {
    c.Top? || (c.InLeft? && LeftSpine(c.up))
  }

  lemma {:induction false} ComposePlug<T>(inner: Ctx<T>, outer: Ctx<T>, t: Tree<T>)
    ensures Plug(Compose(inner, outer), t) == Plug(outer, Plug(inner, t))
    decreases inner
  {
    if !inner.Top? {
      ComposePlug(inner.up, outer, Grow(inner, t));
    }
  }

  lemma {:induction false} SpineSpell<T>(inner: Ctx<T>, outer: Ctx<T>)
    requires LeftSpine(inner)
    ensures Before(Compose(inner, outer)) == Before(outer)
    ensures After(Compose(inner, outer)) == After(inner) + After(outer)
    decreases inner
  {
    if !inner.Top? {
      SpineSpell(inner.up, outer);
      Assoc([inner.item], InOrder(inner.sib), After(inner.up), After(outer));
    }
  }

  /** Balance does not look at the items: a frame's node may be exchanged. */
  lemma {:induction false} ExchangeItem<T>(inner: Ctx<T>, outer: Ctx<T>, z: T, y: T, k: Color, l: Tree<T>, h: nat)
    ensures var c, c' := Compose(inner, InRight(outer, z, k, l)), Compose(inner, InRight(outer, y, k, l));
      && (CtxBalanced(c, h) <==> CtxBalanced(c', h))
      && (OuterBlack(c) <==> OuterBlack(c')) && (TopRed(c) <==> TopRed(c')) && !c.Top? && !c'.Top?
    decreases inner
  {
    if !inner.Top? {
      ExchangeItem(inner.up, outer, z, y, k, l, if inner.color.Black? then h + 1 else h);
    }
  }
}
