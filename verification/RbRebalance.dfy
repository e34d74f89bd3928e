/**
 Why the fix-up loops of insertion and removal restore the red-black conditions:
 one lemma per case, on shapes.
 */
module RbRebalance {
  import opened RbShape

  // --------------------------------------------------------------------------
  // Insertion
  // --------------------------------------------------------------------------

  /** All conditions hold, except that the red root of `t` may have a red parent or be the root. */
  predicate RedAtHole(c: Ctx, t: Tree) {
    && IsRed(t) && NoRedRed(t) && Balanced(t, BlackHeight(t))
    && CtxBalanced(c, BlackHeight(t)) && CtxNoRedRed(c)
  }

  /** Parent and uncle are red: both turn black, the grandparent turns red. */
  lemma {:induction false} RecolorStep(c: Ctx, t: Tree)
    requires RedAtHole(c, t) && RedFrame(c) && !c.up.Top? && IsRed(Sibling(c.up))
    ensures RedAtHole(c.up.up, Paint(Fill(PaintSibling(c.up, Black), Paint(Fill(c, t), Black)), Red))
  {
    var h := BlackHeight(t);
    var p, u := Paint(Fill(c, t), Black), Paint(Sibling(c.up), Black);
    assert CtxBalanced(c.up, h) && CtxNoRedRed(c.up);
    assert Balanced(p, h + 1) && Balanced(u, h + 1);
    BalancedHeight(p, h + 1);
    BalancedHeight(u, h + 1);
  }

  /** Node and parent are both left children and the uncle is black: one rotation at the grandparent. */
  lemma {:induction false} RotateRightStep(c: Ctx, t: Tree)
    requires RedAtHole(c, t) && RedFrame(c) && c.InLeft? && c.up.InLeft? && !IsRed(c.up.right)
    ensures RedAtHole(InLeft(Black, c.addr, Node(Red, c.right, c.up.addr, c.up.right), c.up.up), t)
  {
    assert CtxBalanced(c.up, BlackHeight(t)) && CtxNoRedRed(c.up);
  }

  lemma {:induction false} RotateLeftStep(c: Ctx, t: Tree)
    requires RedAtHole(c, t) && RedFrame(c) && c.InRight? && c.up.InRight? && !IsRed(c.up.left)
    ensures RedAtHole(InRight(Black, Node(Red, c.up.left, c.up.addr, c.left), c.addr, c.up.up), t)
  {
    assert CtxBalanced(c.up, BlackHeight(t)) && CtxNoRedRed(c.up);
  }

  /** An inner grandchild is first rotated to the outside. */
  lemma {:induction false} OuterStepLeft(c: Ctx, t: Tree)
    requires RedAtHole(c, t) && RedFrame(c) && c.InRight?
    ensures RedAtHole(InLeft(Red, t.addr, t.right, c.up), Node(Red, c.left, c.addr, t.left))
  {
    BalancedHeight(c.left, BlackHeight(t));
    BalancedHeight(t.right, BlackHeight(t));
  }

  lemma {:induction false} OuterStepRight(c: Ctx, t: Tree)
    requires RedAtHole(c, t) && RedFrame(c) && c.InLeft?
    ensures RedAtHole(InRight(Red, t.left, t.addr, c.up), Node(Red, t.right, c.addr, c.right))
  {
    BalancedHeight(t.right, BlackHeight(t));
  }

  /** The last step of insertion: the root is painted black. */
  function Blackened(c: Ctx, t: Tree): (s: Tree)
    requires RedAtHole(c, t) && !RedFrame(c)
    ensures s == Paint(Plug(c, t), Black) && IsRb(s) && Plug(c, t).Node?
  {
    if c.Top? then
      BalancedHeight(Paint(t, Black), BlackHeight(t) + 1);
      Paint(t, Black)
    else
      PlugIsRb(c, t, BlackHeight(t));
      PlugInOrder(c, t);
      Plug(c, t)
  }

  // --------------------------------------------------------------------------
  // Removal
  // --------------------------------------------------------------------------

  /**
   All conditions hold, except that the paths through `t` are one black node short, and that
   a red root of `t` may have a red parent or red children.
   */
  predicate Short(c: Ctx, t: Tree) {
    && NoRedRed(Paint(t, Black)) && Balanced(t, BlackHeight(t))
    && CtxBalanced(c, BlackHeight(t) + 1) && CtxNoRedRed(c)
  }

  /** The sibling of a short subtree is a real node; if it is red, so are its children real and black. */
  lemma {:induction false} ShortSibling(c: Ctx, t: Tree)
    requires Short(c, t) && !c.Top?
    ensures Sibling(c).Node?
    ensures IsRed(Sibling(c)) ==> c.color == Black && Sibling(c).left.Node? && Sibling(c).right.Node?
    ensures IsRed(Sibling(c)) ==> !IsRed(Sibling(c).left) && !IsRed(Sibling(c).right)
  {
    var s, h := Sibling(c), BlackHeight(t) + 1;
    assert Balanced(s, h);
    if IsRed(s) {
      assert Balanced(s.left, h) && Balanced(s.right, h);
    }
  }

  /** A short red subtree, or a short tree as a whole, only has to be painted black. */
  lemma {:induction false} ShortDone(c: Ctx, t: Tree)
    requires Short(c, t) && (IsRed(t) || c.Top?)
    ensures IsRb(Plug(c, Paint(t, Black)))
  {
    var h := BlackHeight(t);
    if IsRed(t) {
      PlugIsRb(c, Paint(t, Black), h + 1);
    } else {
      PlugIsRb(c, t, h);
    }
  }

  /** Red sibling: a rotation brings a black one. */
  lemma {:induction false} RedSiblingLeft(c: Ctx, t: Tree)
    requires Short(c, t) && c.InLeft? && IsRed(c.right)
    ensures Short(InLeft(Red, c.addr, c.right.left, InLeft(Black, c.right.addr, c.right.right, c.up)), t)
  {
  }

  lemma {:induction false} RedSiblingRight(c: Ctx, t: Tree)
    requires Short(c, t) && c.InRight? && IsRed(c.left)
    ensures Short(InRight(Red, c.left.right, c.addr, InRight(Black, c.left.left, c.left.addr, c.up)), t)
  {
  }

  /** Black sibling with black children: it turns red and the shortage moves up. */
  lemma {:induction false} ShortageUp(c: Ctx, t: Tree)
    requires Short(c, t) && !c.Top? && !IsRed(t)
    requires var s := Sibling(c); !IsRed(s) && s.Node? && !IsRed(s.left) && !IsRed(s.right)
    ensures Short(c.up, Fill(PaintSibling(c, Red), t))
  {
    var h := BlackHeight(t);
    var s := Paint(Sibling(c), Red);
    assert Balanced(s, h);
    BalancedHeight(s, h);
  }

  /** Black sibling whose inner child is red: a rotation makes the outer child red. */
  lemma {:induction false} InnerNephewLeft(c: Ctx, t: Tree)
    requires Short(c, t) && c.InLeft? && c.right.Node? && !IsRed(c.right)
    requires IsRed(c.right.left) && !IsRed(c.right.right)
    ensures Short(c.(right := RotR(Node(Red, Paint(c.right.left, Black), c.right.addr, c.right.right))), t)
  {
    var h := BlackHeight(t);
    assert NoRedRed(c.right.left) && Balanced(c.right.left, h);
    var s := RotR(Node(Red, Paint(c.right.left, Black), c.right.addr, c.right.right));
    assert NoRedRed(s.right) && Balanced(s.right, h);
  }

  lemma {:induction false} InnerNephewRight(c: Ctx, t: Tree)
    requires Short(c, t) && c.InRight? && c.left.Node? && !IsRed(c.left)
    requires IsRed(c.left.right) && !IsRed(c.left.left)
    ensures Short(c.(left := RotL(Node(Red, c.left.left, c.left.addr, Paint(c.left.right, Black)))), t)
  {
    var h := BlackHeight(t);
    assert NoRedRed(c.left.right) && Balanced(c.left.right, h);
    var s := RotL(Node(Red, c.left.left, c.left.addr, Paint(c.left.right, Black)));
    assert NoRedRed(s.left) && Balanced(s.left, h);
  }

  /** Black sibling whose outer child is red: one rotation at the parent ends the repair. */
  lemma {:induction false} OuterNephewLeft(c: Ctx, t: Tree)
    requires Short(c, t) && !IsRed(t) && c.InLeft? && c.right.Node? && !IsRed(c.right) && IsRed(c.right.right)
    ensures IsRb(Plug(c.up, Node(c.color, Node(Black, t, c.addr, c.right.left), c.right.addr,
                                 Paint(c.right.right, Black))))
  {
    var h := BlackHeight(t);
    var u := Node(c.color, Node(Black, t, c.addr, c.right.left), c.right.addr, Paint(c.right.right, Black));
    assert NoRedRed(c.right.right) && Balanced(c.right.right, h);
    assert Balanced(u.left, h + 1) && Balanced(u.right, h + 1);
    PlugIsRb(c.up, u, h + 1 + Weight(c.color));
  }

  lemma {:induction false} OuterNephewRight(c: Ctx, t: Tree)
    requires Short(c, t) && !IsRed(t) && c.InRight? && c.left.Node? && !IsRed(c.left) && IsRed(c.left.left)
    ensures IsRb(Plug(c.up, Node(c.color, Paint(c.left.left, Black), c.left.addr,
                                 Node(Black, c.left.right, c.addr, t))))
  {
    var h := BlackHeight(t);
    var u := Node(c.color, Paint(c.left.left, Black), c.left.addr, Node(Black, c.left.right, c.addr, t));
    assert NoRedRed(c.left.left) && Balanced(c.left.left, h);
    assert Balanced(u.left, h + 1) && Balanced(u.right, h + 1);
    PlugIsRb(c.up, u, h + 1 + Weight(c.color));
  }

  /** What decreases in the loop of removal; a red focus ends it. */
  function Excess(c: Ctx, t: Tree): nat {
    Depth(c) + if IsRed(t) then 0 else 1
  }

  /** A node with at most one child is replaced by that child. */
  lemma {:induction false} AfterSplice(c: Ctx, t: Tree, child: Tree)
    requires IsRb(Plug(c, t)) && t.Node?
    requires (t.left.Leaf? && child == t.right) || (t.right.Leaf? && child == t.left)
    ensures t.color == Black ==> Short(c, child)
    ensures t.color == Red ==> IsRb(Plug(c, child))
  {
    RbSplit(c, t);
    ChildHeight(t, child);
    if t.color == Red {
      PlugIsRb(c, child, BlackHeight(child));
    }
  }

  lemma {:induction false} ChildHeight(t: Tree, child: Tree)
    requires t.Node? && (child == t.left || child == t.right)
    requires NoRedRed(t) && Balanced(t, BlackHeight(t))
    ensures Balanced(child, BlackHeight(child)) && BlackHeight(t) == BlackHeight(child) + Weight(t.color)
    ensures NoRedRed(child) && NoRedRed(Paint(child, Black)) && (t.color == Red ==> !IsRed(child))
  {
    BalancedHeight(child, BlackHeight(t.left));
  }

  /** The conditions do not depend on which address a node has. */
  lemma {:induction false} RenameRb(c: Ctx, t: Tree, b: Addr)
    requires t.Node? && IsRb(Plug(c, t))
    ensures IsRb(Plug(c, t.(addr := b)))
  {
    RbSplit(c, t);
    PlugIsRb(c, t.(addr := b), BlackHeight(t));
  }

  /** An empty position takes a red leaf. */
  lemma {:induction false} AfterLink(c: Ctx, a: Addr)
    requires IsRb(Plug(c, Leaf))
    ensures RedAtHole(c, Node(Red, Leaf, a, Leaf))
  {
    RbSplit(c, Leaf);
  }
}
