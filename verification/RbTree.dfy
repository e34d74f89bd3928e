/**
 The red-black tree: rotations, the two fix-up loops, linking and erasing, on
 nodes whose parent, child and colour fields are rewritten in place.
 */
module RbTree {
  import opened RbShape
  import opened RbMemory
  import opened RbRebalance

  /** From tree `t` to `t'`: the same nodes in the same order, and no other node was touched. */
  ghost predicate Kept(m: Mem, m': Mem, t: Tree, t': Tree) {
    SameWalk(t, t') && SameOutside(m, m', Addrs(t))
  }

  class RbTree {
    var mem: Mem
    var root: Addr
    /** The tree that the nodes stand for. */
    ghost var shape: Tree

    ghost predicate Valid()
      reads this
    {
      Holds(mem, root, Top, shape) && IsRb(shape)
    }

    /** An empty tree over `n` nodes, none of them linked. */
    constructor (n: nat)
      ensures Valid() && shape == Leaf && |mem| == n + 1
      ensures forall a :: 0 < a < |mem| ==> mem[a].parentColor == 0
    {
      mem := seq(n + 1, _ => RbNode(0, 0, 0));
      root := 0;
      shape := Leaf;
    }

    /** The pointer to `node`, in its parent or in the root, is replaced by one to `heir`. */
    method ReplaceChild(parent: Addr, node: Addr, heir: Addr, ghost c: Ctx)
      requires parent == ParentOf(c) && (!c.Top? <==> 0 < parent) && parent < |mem|
      requires !c.Top? ==> (c.InLeft? <==> mem[parent].left == node)
      modifies `mem, `root
      ensures Relinked(old(mem), mem, old(root), root, c, heir)
      ensures SameOutside(old(mem), mem, {parent})
    {
      if parent != 0 {
        if mem[parent].left == node {
          mem := PutLeft(mem, parent, heir);
        } else {
          mem := PutRight(mem, parent, heir);
        }
      } else {
        root := heir;
      }
    }

    method RotateLeftPointers(node: Addr, ghost c: Ctx)
      requires 0 < node < |mem| && mem[node].right < |mem|
      requires Edge(mem, ParentOf(c), node, mem[node].right, mem[mem[node].right].left)
      requires ParentBits(mem[node].parentColor) == ParentOf(c)
      requires !c.Top? ==> 0 < c.addr && (c.InLeft? <==> mem[c.addr].left == node)
      modifies `mem, `root
      ensures SameOutside(old(mem), mem,
                {node, old(mem)[node].right, old(mem)[old(mem)[node].right].left, ParentOf(c)})
      ensures var right := old(mem)[node].right;
        && mem[node] == RbNode(WithParent(old(mem)[node].parentColor, right), old(mem)[right].left, old(mem)[node].left)
        && mem[right] == RbNode(WithParent(old(mem)[right].parentColor, ParentOf(c)), old(mem)[right].right, node)
        && Reparented(old(mem), mem, old(mem)[right].left, node)
        && Relinked(old(mem), mem, old(root), root, c, right)
    {
      var right := mem[node].right;
      var parent := ParentBits(mem[node].parentColor);

      mem := PutRight(mem, node, mem[right].left);
      if mem[node].right != 0 {
        mem := PutParent(mem, mem[right].left, node);
      }
      mem := PutLeft(mem, right, node);
      mem := PutParent(mem, right, parent);
      ReplaceChild(parent, node, right, c);
      mem := PutParent(mem, node, right);
    }

    method RotateLeft(node: Addr, ghost c: Ctx, ghost t: Tree)
      requires Holds(mem, root, c, t) && t.Node? && t.addr == node && t.right.Node?
      modifies `mem, `root
      ensures Holds(mem, root, c, RotL(t))
      ensures Kept(old(mem), mem, Plug(c, t), Plug(c, RotL(t)))
    {
      RightEdge(mem, root, c, t);
      HoleSide(mem, root, c, t);
      PackedWord(ParentOf(c), t.color, t.right.addr, t.color);
      PackedWord(node, t.right.color, ParentOf(c), t.right.color);
      RotateLeftPointers(node, c);
      RotatedLeft(old(mem), mem, old(root), root, c, t);
      RotLInOrder(t);
      PlugSameOrder(c, t, RotL(t));
      EdgeInside(c, t, t.right);
      SameOutsideWiden(old(mem), mem, {node, t.right.addr, Root(t.right.left), ParentOf(c)}, Addrs(Plug(c, t)));
    }

    method RotateRightPointers(node: Addr, ghost c: Ctx)
      requires 0 < node < |mem| && mem[node].left < |mem|
      requires Edge(mem, ParentOf(c), node, mem[node].left, mem[mem[node].left].right)
      requires ParentBits(mem[node].parentColor) == ParentOf(c)
      requires !c.Top? ==> 0 < c.addr && (c.InLeft? <==> mem[c.addr].left == node)
      requires c.InRight? ==> mem[c.addr].right == node
      modifies `mem, `root
      ensures SameOutside(old(mem), mem,
                {node, old(mem)[node].left, old(mem)[old(mem)[node].left].right, ParentOf(c)})
      ensures var left := old(mem)[node].left;
        && mem[node] == RbNode(WithParent(old(mem)[node].parentColor, left), old(mem)[node].right, old(mem)[left].right)
        && mem[left] == RbNode(WithParent(old(mem)[left].parentColor, ParentOf(c)), node, old(mem)[left].left)
        && Reparented(old(mem), mem, old(mem)[left].right, node)
        && Relinked(old(mem), mem, old(root), root, c, left)
    {
      var left := mem[node].left;
      var parent := ParentBits(mem[node].parentColor);

      mem := PutLeft(mem, node, mem[left].right);
      if mem[node].left != 0 {
        mem := PutParent(mem, mem[left].right, node);
      }
      mem := PutRight(mem, left, node);
      mem := PutParent(mem, left, parent);
      ReplaceChild(parent, node, left, c);
      mem := PutParent(mem, node, left);
    }

    method RotateRight(node: Addr, ghost c: Ctx, ghost t: Tree)
      requires Holds(mem, root, c, t) && t.Node? && t.addr == node && t.left.Node?
      modifies `mem, `root
      ensures Holds(mem, root, c, RotR(t))
      ensures Kept(old(mem), mem, Plug(c, t), Plug(c, RotR(t)))
    {
      LeftEdge(mem, root, c, t);
      HoleSide(mem, root, c, t);
      PackedWord(ParentOf(c), t.color, t.left.addr, t.color);
      PackedWord(node, t.left.color, ParentOf(c), t.left.color);
      RotateRightPointers(node, c);
      RotatedRight(old(mem), mem, old(root), root, c, t);
      RotRInOrder(t);
      PlugSameOrder(c, t, RotR(t));
      EdgeInside(c, t, t.left);
      SameOutsideWiden(old(mem), mem, {node, t.left.addr, Root(t.left.right), ParentOf(c)}, Addrs(Plug(c, t)));
    }

    /** `rb_set_red`, `rb_set_black` and `rb_set_color` keep the parent in the packed word. */
    method StoreColor(node: Addr, k: Color, ghost p: Addr, ghost k0: Color)
      requires node < |mem| && mem[node].parentColor == Pack(p, k0)
      modifies `mem
      ensures mem == old(mem)[node := old(mem)[node].(parentColor := Pack(p, k))]
    {
      PackedWord(p, k0, 0, k);
      mem := PutColor(mem, node, k);
    }

    method SetColor(node: Addr, k: Color, ghost c: Ctx, ghost t: Tree)
      requires Holds(mem, root, c, t) && t.Node? && t.addr == node
      modifies `mem
      ensures Holds(mem, root, c, Paint(t, k))
      ensures Kept(old(mem), mem, Plug(c, t), Plug(c, Paint(t, k)))
    {
      PlugSameOrder(c, t, Paint(t, k));
      PlugAddrs(c, t);
      StoreColor(node, k, ParentOf(c), t.color);
      Recolored(old(mem), mem, root, c, t, k);
    }

    /** Parent and uncle are red. */
    method InsertRecolor(uncle: Addr, parent: Addr, gparent: Addr, ghost c: Ctx, ghost t: Tree)
        returns (ghost c': Ctx, ghost t': Tree)
      requires Holds(mem, root, c, t) && RedAtHole(c, t) && RedFrame(c)
      requires !c.up.Top? && IsRed(Sibling(c.up)) && uncle == Sibling(c.up).addr
      requires parent == c.addr && gparent == c.up.addr
      modifies `mem
      ensures Holds(mem, root, c', t') && RedAtHole(c', t') && t'.addr == gparent && Depth(c') < Depth(c)
      ensures Kept(old(mem), mem, Plug(c, t), Plug(c', t'))
    {
      hide Holds;
      ghost var p, d := Fill(c, t), PaintSibling(c.up, Black);
      ghost var b := Beside(c.up, p);
      Refocus(mem, root, c, t, b, Sibling(c.up));
      SetColor(uncle, Black, b, Sibling(c.up));
      Refocus(mem, root, b, Paint(Sibling(c.up), Black), d, p);
      SetColor(parent, Black, d, p);
      p := Paint(p, Black);
      Refocus(mem, root, d, p, d.up, Fill(d, p));
      SetColor(gparent, Red, d.up, Fill(d, p));
      c', t' := d.up, Paint(Fill(d, p), Red);
      RecolorStep(c, t);
    }

    /** Parent is a red left child, the uncle is not red, the node is the outer grandchild. */
    method InsertRotateRight(parent: Addr, gparent: Addr, ghost c: Ctx, ghost t: Tree)
        returns (ghost c': Ctx)
      requires Holds(mem, root, c, t) && RedAtHole(c, t) && RedFrame(c)
      requires c.InLeft? && c.up.InLeft? && !IsRed(c.up.right) && parent == c.addr && gparent == c.up.addr
      modifies `mem, `root
      ensures Holds(mem, root, c', t) && RedAtHole(c', t) && Depth(c') < Depth(c)
      ensures Kept(old(mem), mem, Plug(c, t), Plug(c', t))
    {
      hide Holds;
      RotateRightStep(c, t);
      ghost var p, up := Fill(c, t), c.up.up;
      Refocus(mem, root, c, t, c.up, p);
      SetColor(parent, Black, c.up, p);
      ghost var g := Fill(c.up, Paint(p, Black));
      Refocus(mem, root, c.up, Paint(p, Black), up, g);
      SetColor(gparent, Red, up, g);
      RotateRight(gparent, up, Paint(g, Red));
      c' := InLeft(Black, parent, Node(Red, c.right, gparent, c.up.right), up);
      Refocus(mem, root, up, RotR(Paint(g, Red)), c', t);
    }

    method InsertRotateLeft(parent: Addr, gparent: Addr, ghost c: Ctx, ghost t: Tree)
        returns (ghost c': Ctx)
      requires Holds(mem, root, c, t) && RedAtHole(c, t) && RedFrame(c)
      requires c.InRight? && c.up.InRight? && !IsRed(c.up.left) && parent == c.addr && gparent == c.up.addr
      modifies `mem, `root
      ensures Holds(mem, root, c', t) && RedAtHole(c', t) && Depth(c') < Depth(c)
      ensures Kept(old(mem), mem, Plug(c, t), Plug(c', t))
    {
      hide Holds;
      RotateLeftStep(c, t);
      ghost var p, up := Fill(c, t), c.up.up;
      Refocus(mem, root, c, t, c.up, p);
      SetColor(parent, Black, c.up, p);
      ghost var g := Fill(c.up, Paint(p, Black));
      Refocus(mem, root, c.up, Paint(p, Black), up, g);
      SetColor(gparent, Red, up, g);
      RotateLeft(gparent, up, Paint(g, Red));
      c' := InRight(Black, Node(Red, c.up.left, gparent, c.left), parent, up);
      Refocus(mem, root, up, RotL(Paint(g, Red)), c', t);
    }

    /** An inner right grandchild is rotated to the outside: node and parent change roles. */
    method InsertOuterLeft(node: Addr, parent: Addr, ghost c: Ctx, ghost t: Tree)
        returns (ghost c': Ctx, ghost t': Tree)
      requires Holds(mem, root, c, t) && RedAtHole(c, t) && RedFrame(c)
      requires c.InRight? && parent == c.addr && node == t.addr
      modifies `mem, `root
      ensures Holds(mem, root, c', t') && RedAtHole(c', t') && RedFrame(c') && c'.InLeft? && c'.up == c.up
      ensures c'.addr == node && t'.addr == parent
      ensures Kept(old(mem), mem, Plug(c, t), Plug(c', t'))
    {
      hide Holds;
      OuterStepLeft(c, t);
      Refocus(mem, root, c, t, c.up, Fill(c, t));
      RotateLeft(parent, c.up, Fill(c, t));
      c', t' := InLeft(Red, t.addr, t.right, c.up), Node(Red, c.left, c.addr, t.left);
      Refocus(mem, root, c.up, RotL(Fill(c, t)), c', t');
    }

    method InsertOuterRight(node: Addr, parent: Addr, ghost c: Ctx, ghost t: Tree)
        returns (ghost c': Ctx, ghost t': Tree)
      requires Holds(mem, root, c, t) && RedAtHole(c, t) && RedFrame(c)
      requires c.InLeft? && parent == c.addr && node == t.addr
      modifies `mem, `root
      ensures Holds(mem, root, c', t') && RedAtHole(c', t') && RedFrame(c') && c'.InRight? && c'.up == c.up
      ensures c'.addr == node && t'.addr == parent
      ensures Kept(old(mem), mem, Plug(c, t), Plug(c', t'))
    {
      hide Holds;
      OuterStepRight(c, t);
      Refocus(mem, root, c, t, c.up, Fill(c, t));
      RotateRight(parent, c.up, Fill(c, t));
      c', t' := InRight(Red, t.left, t.addr, c.up), Node(Red, t.right, c.addr, c.right);
      Refocus(mem, root, c.up, RotR(Fill(c, t)), c', t');
    }

    predicate RedAt(a: Addr)
      requires a < |mem|
      reads this
    {
      ColorBit(mem[a].parentColor) == Red
    }

    /** One round of the loop when the parent is a left child. */
    method InsertFixLeft(node0: Addr, parent0: Addr, gparent: Addr, ghost c: Ctx, ghost t: Tree)
        returns (node: Addr, ghost c': Ctx, ghost t': Tree)
      requires Holds(mem, root, c, t) && RedAtHole(c, t) && RedFrame(c) && c.up.InLeft?
      requires node0 == t.addr && parent0 == c.addr && gparent == c.up.addr
      modifies `mem, `root
      ensures Holds(mem, root, c', t') && RedAtHole(c', t') && t'.addr == node && Depth(c') < Depth(c)
      ensures Kept(old(mem), mem, Plug(c, t), Plug(c', t'))
    {
      NearFields(mem, root, c, t);
      hide Holds;
      var uncle := mem[gparent].right;
      if uncle != 0 && RedAt(uncle) {
        c', t' := InsertRecolor(uncle, parent0, gparent, c, t);
        return gparent, c', t';
      }
      node, c', t' := node0, c, t;
      var parent := parent0;
      if mem[parent].right == node {
        c', t' := InsertOuterLeft(node, parent, c, t);
        node, parent := parent, node;
      }
      c' := InsertRotateRight(parent, gparent, c', t');
    }

    method InsertFixRight(node0: Addr, parent0: Addr, gparent: Addr, ghost c: Ctx, ghost t: Tree)
        returns (node: Addr, ghost c': Ctx, ghost t': Tree)
      requires Holds(mem, root, c, t) && RedAtHole(c, t) && RedFrame(c) && c.up.InRight?
      requires node0 == t.addr && parent0 == c.addr && gparent == c.up.addr
      modifies `mem, `root
      ensures Holds(mem, root, c', t') && RedAtHole(c', t') && t'.addr == node && Depth(c') < Depth(c)
      ensures Kept(old(mem), mem, Plug(c, t), Plug(c', t'))
    {
      NearFields(mem, root, c, t);
      hide Holds;
      var uncle := mem[gparent].left;
      if uncle != 0 && RedAt(uncle) {
        c', t' := InsertRecolor(uncle, parent0, gparent, c, t);
        return gparent, c', t';
      }
      node, c', t' := node0, c, t;
      var parent := parent0;
      if mem[parent].left == node {
        c', t' := InsertOuterRight(node, parent, c, t);
        node, parent := parent, node;
      }
      c' := InsertRotateLeft(parent, gparent, c', t');
    }

    /** `rb_insert_color`, after `node0` was linked as a red leaf or became red in an earlier round. */
    method InsertColor(node0: Addr, ghost c0: Ctx, ghost t0: Tree) returns (ghost shape: Tree)
      requires Holds(mem, root, c0, t0) && RedAtHole(c0, t0) && node0 == t0.addr
      modifies `mem, `root
      ensures Holds(mem, root, Top, shape) && IsRb(shape)
      ensures Kept(old(mem), mem, Plug(c0, t0), shape)
    {
      hide Holds;
      var node := node0;
      ghost var c, t := c0, t0;
      NearFields(mem, root, c, t);
      var parent := ParentBits(mem[node].parentColor);
      while parent != 0 && RedAt(parent)
        invariant Holds(mem, root, c, t) && RedAtHole(c, t)
        invariant node == t.addr && parent == ParentOf(c) && node < |mem| && parent < |mem|
        invariant RedFrame(c) <==> parent != 0 && RedAt(parent)
        invariant Kept(old(mem), mem, Plug(c0, t0), Plug(c, t))
        decreases Depth(c)
      {
        NearFields(mem, root, c, t);
        var gparent := ParentBits(mem[parent].parentColor);
        if parent == mem[gparent].left {
          node, c, t := InsertFixLeft(node, parent, gparent, c, t);
        } else {
          node, c, t := InsertFixRight(node, parent, gparent, c, t);
        }
        NearFields(mem, root, c, t);
        parent := ParentBits(mem[node].parentColor);
      }
      shape := Blackened(c, t);
      Refocus(mem, root, c, t, Top, Plug(c, t));
      FocusFields(mem, root, Top, Plug(c, t));
      SetColor(root, Black, Top, Plug(c, t));
    }

    /** The sibling is red: after one rotation the sibling is a former nephew, and black. */
    method EraseRedSiblingLeft(other: Addr, parent: Addr, ghost c: Ctx, ghost t: Tree) returns (ghost c': Ctx)
      requires Holds(mem, root, c, t) && Short(c, t) && c.InLeft? && IsRed(c.right)
      requires other == c.right.addr && parent == c.addr
      modifies `mem, `root
      ensures Holds(mem, root, c', t) && Short(c', t) && c'.InLeft? && !IsRed(c'.right) && c'.addr == parent
      ensures RedFrame(c') && Depth(c'.up) == Depth(c)
      ensures Kept(old(mem), mem, Plug(c, t), Plug(c', t))
    {
      hide Holds;
      ShortSibling(c, t);
      RedSiblingLeft(c, t);
      ghost var b := Beside(c, t);
      Refocus(mem, root, c, t, b, c.right);
      SetColor(other, Black, b, c.right);
      ghost var p := Fill(PaintSibling(c, Black), t);
      Refocus(mem, root, b, Paint(c.right, Black), c.up, p);
      SetColor(parent, Red, c.up, p);
      RotateLeft(parent, c.up, Paint(p, Red));
      c' := InLeft(Red, c.addr, c.right.left, InLeft(Black, c.right.addr, c.right.right, c.up));
      Refocus(mem, root, c.up, RotL(Paint(p, Red)), c', t);
    }

    /** The sibling is black, its inner child red and its outer child not: a rotation makes the outer one red. */
    method EraseInnerLeft(other: Addr, inner: Addr, ghost c: Ctx, ghost t: Tree) returns (ghost c': Ctx)
      requires Holds(mem, root, c, t) && Short(c, t) && c.InLeft? && c.right.Node? && !IsRed(c.right)
      requires IsRed(c.right.left) && !IsRed(c.right.right)
      requires other == c.right.addr && inner == c.right.left.addr
      modifies `mem, `root
      ensures Holds(mem, root, c', t) && Short(c', t) && c'.InLeft? && c'.right.Node? && !IsRed(c'.right)
      ensures IsRed(c'.right.right) && c'.addr == c.addr && c'.up == c.up && c'.color == c.color
      ensures Kept(old(mem), mem, Plug(c, t), Plug(c', t))
    {
      hide Holds;
      InnerNephewLeft(c, t);
      ghost var b := Beside(c, t);
      ghost var i := InLeft(c.right.color, c.right.addr, c.right.right, b);
      Refocus(mem, root, c, t, i, c.right.left);
      SetColor(inner, Black, i, c.right.left);
      ghost var o := Fill(i, Paint(c.right.left, Black));
      Refocus(mem, root, i, Paint(c.right.left, Black), b, o);
      SetColor(other, Red, b, o);
      RotateRight(other, b, Paint(o, Red));
      c' := c.(right := RotR(Paint(o, Red)));
      Refocus(mem, root, b, RotR(Paint(o, Red)), c', t);
    }

    /** The sibling is black and its outer child red: one rotation at the parent ends the repair. */
    method EraseOuterLeft(other: Addr, parent: Addr, outer: Addr, k: Color, ghost c: Ctx, ghost t: Tree)
        returns (ghost shape: Tree)
      requires Holds(mem, root, c, t) && Short(c, t) && !IsRed(t) && c.InLeft? && c.right.Node?
      requires !IsRed(c.right) && IsRed(c.right.right) && k == c.color
      requires other == c.right.addr && parent == c.addr && outer == c.right.right.addr
      modifies `mem, `root
      ensures Holds(mem, root, Top, shape) && IsRb(shape) && shape.Node?
      ensures Kept(old(mem), mem, Plug(c, t), shape)
    {
      hide Holds;
      OuterNephewLeft(c, t);
      ghost var b := Beside(c, t);
      Refocus(mem, root, c, t, b, c.right);
      SetColor(other, k, b, c.right);
      ghost var o := Paint(c.right, k);
      ghost var p := Fill(c.(right := o), t);
      Refocus(mem, root, b, o, c.up, p);
      SetColor(parent, Black, c.up, p);
      ghost var q := InRight(k, o.left, o.addr, InRight(Black, t, c.addr, c.up));
      Refocus(mem, root, c.up, Paint(p, Black), q, o.right);
      SetColor(outer, Black, q, o.right);
      p := Node(Black, t, c.addr, Node(k, o.left, o.addr, Paint(o.right, Black)));
      Refocus(mem, root, q, Paint(o.right, Black), c.up, p);
      RotateLeft(parent, c.up, p);
      shape := Plug(c.up, RotL(p));
      PlugNode(c.up, RotL(p));
      Refocus(mem, root, c.up, RotL(p), Top, shape);
    }

    method EraseRedSiblingRight(other: Addr, parent: Addr, ghost c: Ctx, ghost t: Tree) returns (ghost c': Ctx)
      requires Holds(mem, root, c, t) && Short(c, t) && c.InRight? && IsRed(c.left)
      requires other == c.left.addr && parent == c.addr
      modifies `mem, `root
      ensures Holds(mem, root, c', t) && Short(c', t) && c'.InRight? && !IsRed(c'.left) && c'.addr == parent
      ensures RedFrame(c') && Depth(c'.up) == Depth(c)
      ensures Kept(old(mem), mem, Plug(c, t), Plug(c', t))
    {
      hide Holds;
      ShortSibling(c, t);
      RedSiblingRight(c, t);
      ghost var b := Beside(c, t);
      Refocus(mem, root, c, t, b, c.left);
      SetColor(other, Black, b, c.left);
      ghost var p := Fill(PaintSibling(c, Black), t);
      Refocus(mem, root, b, Paint(c.left, Black), c.up, p);
      SetColor(parent, Red, c.up, p);
      RotateRight(parent, c.up, Paint(p, Red));
      c' := InRight(Red, c.left.right, c.addr, InRight(Black, c.left.left, c.left.addr, c.up));
      Refocus(mem, root, c.up, RotR(Paint(p, Red)), c', t);
    }

    method EraseInnerRight(other: Addr, inner: Addr, ghost c: Ctx, ghost t: Tree) returns (ghost c': Ctx)
      requires Holds(mem, root, c, t) && Short(c, t) && c.InRight? && c.left.Node? && !IsRed(c.left)
      requires IsRed(c.left.right) && !IsRed(c.left.left)
      requires other == c.left.addr && inner == c.left.right.addr
      modifies `mem, `root
      ensures Holds(mem, root, c', t) && Short(c', t) && c'.InRight? && c'.left.Node? && !IsRed(c'.left)
      ensures IsRed(c'.left.left) && c'.addr == c.addr && c'.up == c.up && c'.color == c.color
      ensures Kept(old(mem), mem, Plug(c, t), Plug(c', t))
    {
      hide Holds;
      InnerNephewRight(c, t);
      ghost var b := Beside(c, t);
      ghost var i := InRight(c.left.color, c.left.left, c.left.addr, b);
      Refocus(mem, root, c, t, i, c.left.right);
      SetColor(inner, Black, i, c.left.right);
      ghost var o := Fill(i, Paint(c.left.right, Black));
      Refocus(mem, root, i, Paint(c.left.right, Black), b, o);
      SetColor(other, Red, b, o);
      RotateLeft(other, b, Paint(o, Red));
      c' := c.(left := RotL(Paint(o, Red)));
      Refocus(mem, root, b, RotL(Paint(o, Red)), c', t);
    }

    method EraseOuterRight(other: Addr, parent: Addr, outer: Addr, k: Color, ghost c: Ctx, ghost t: Tree)
        returns (ghost shape: Tree)
      requires Holds(mem, root, c, t) && Short(c, t) && !IsRed(t) && c.InRight? && c.left.Node?
      requires !IsRed(c.left) && IsRed(c.left.left) && k == c.color
      requires other == c.left.addr && parent == c.addr && outer == c.left.left.addr
      modifies `mem, `root
      ensures Holds(mem, root, Top, shape) && IsRb(shape) && shape.Node?
      ensures Kept(old(mem), mem, Plug(c, t), shape)
    {
      hide Holds;
      OuterNephewRight(c, t);
      ghost var b := Beside(c, t);
      Refocus(mem, root, c, t, b, c.left);
      SetColor(other, k, b, c.left);
      ghost var o := Paint(c.left, k);
      ghost var p := Fill(c.(left := o), t);
      Refocus(mem, root, b, o, c.up, p);
      SetColor(parent, Black, c.up, p);
      ghost var q := InLeft(k, o.addr, o.right, InLeft(Black, c.addr, t, c.up));
      Refocus(mem, root, c.up, Paint(p, Black), q, o.left);
      SetColor(outer, Black, q, o.left);
      p := Node(Black, Node(k, Paint(o.left, Black), o.addr, o.right), c.addr, t);
      Refocus(mem, root, q, Paint(o.left, Black), c.up, p);
      RotateRight(parent, c.up, p);
      shape := Plug(c.up, RotR(p));
      PlugNode(c.up, RotR(p));
      Refocus(mem, root, c.up, RotR(p), Top, shape);
    }

    /** The sibling is black and has no red child: it turns red and the shortage moves up. */
    method EraseShortageUp(other: Addr, ghost c: Ctx, ghost t: Tree) returns (ghost t': Tree)
      requires Holds(mem, root, c, t) && Short(c, t) && !c.Top? && !IsRed(t)
      requires var s := Sibling(c); s.Node? && !IsRed(s) && !IsRed(s.left) && !IsRed(s.right) && other == s.addr
      modifies `mem
      ensures Holds(mem, root, c.up, t') && Short(c.up, t') && t'.Node? && t'.addr == c.addr && t'.color == c.color
      ensures Kept(old(mem), mem, Plug(c, t), Plug(c.up, t'))
    {
      hide Holds;
      ShortageUp(c, t);
      ghost var b := Beside(c, t);
      Refocus(mem, root, c, t, b, Sibling(c));
      SetColor(other, Red, b, Sibling(c));
      t' := Fill(PaintSibling(c, Red), t);
      Refocus(mem, root, b, Paint(Sibling(c), Red), c.up, t');
    }

    predicate NotRed(a: Addr)
      requires a < |mem|
      reads this
    {
      a == 0 || !RedAt(a)
    }

    /** The round of the loop once the sibling is black. */
    method EraseBlackSiblingLeft(other0: Addr, parent: Addr, ghost c: Ctx, ghost t: Tree)
        returns (done: bool, ghost c': Ctx, ghost t': Tree)
      requires Holds(mem, root, c, t) && Short(c, t) && !IsRed(t) && c.InLeft? && !IsRed(c.right)
      requires c.right.Node? && other0 == c.right.addr && parent == c.addr
      modifies `mem, `root
      ensures Holds(mem, root, c', t') && Kept(old(mem), mem, Plug(c, t), Plug(c', t'))
      ensures done ==> IsRb(Plug(c', t')) && c'.Top? && t'.Node?
      ensures !done ==> Short(c', t') && c' == c.up && t'.Node? && t'.addr == parent && t'.color == c.color
    {
      SiblingFields(mem, root, c, t);
      hide Holds;
      var other := other0;
      if NotRed(mem[other].left) && NotRed(mem[other].right) {
        t' := EraseShortageUp(other, c, t);
        return false, c.up, t';
      }
      c' := c;
      if NotRed(mem[other].right) {
        c' := EraseInnerLeft(other, mem[other].left, c, t);
        SiblingFields(mem, root, c', t);
        other := mem[parent].right;
      }
      t' := EraseOuterLeft(other, parent, mem[other].right, ColorBit(mem[parent].parentColor), c', t);
      done, c' := true, Top;
    }

    method EraseFixLeft(parent: Addr, ghost c: Ctx, ghost t: Tree) returns (done: bool, ghost c': Ctx, ghost t': Tree)
      requires Holds(mem, root, c, t) && Short(c, t) && !IsRed(t) && c.InLeft? && parent == c.addr
      modifies `mem, `root
      ensures Holds(mem, root, c', t') && Kept(old(mem), mem, Plug(c, t), Plug(c', t'))
      ensures done ==> IsRb(Plug(c', t')) && c'.Top? && t'.Node?
      ensures !done ==> Short(c', t') && t'.Node? && t'.addr == parent && Excess(c', t') < Excess(c, t)
    {
      ShortSibling(c, t);
      SiblingFields(mem, root, c, t);
      hide Holds;
      var other := mem[parent].right;
      c' := c;
      if RedAt(other) {
        c' := EraseRedSiblingLeft(other, parent, c, t);
        ShortSibling(c', t);
        SiblingFields(mem, root, c', t);
        other := mem[parent].right;
      }
      ghost var c1 := c';
      done, c', t' := EraseBlackSiblingLeft(other, parent, c1, t);
    }

    method EraseBlackSiblingRight(other0: Addr, parent: Addr, ghost c: Ctx, ghost t: Tree)
        returns (done: bool, ghost c': Ctx, ghost t': Tree)
      requires Holds(mem, root, c, t) && Short(c, t) && !IsRed(t) && c.InRight? && !IsRed(c.left)
      requires c.left.Node? && other0 == c.left.addr && parent == c.addr
      modifies `mem, `root
      ensures Holds(mem, root, c', t') && Kept(old(mem), mem, Plug(c, t), Plug(c', t'))
      ensures done ==> IsRb(Plug(c', t')) && c'.Top? && t'.Node?
      ensures !done ==> Short(c', t') && c' == c.up && t'.Node? && t'.addr == parent && t'.color == c.color
    {
      SiblingFields(mem, root, c, t);
      hide Holds;
      var other := other0;
      if NotRed(mem[other].right) && NotRed(mem[other].left) {
        t' := EraseShortageUp(other, c, t);
        return false, c.up, t';
      }
      c' := c;
      if NotRed(mem[other].left) {
        c' := EraseInnerRight(other, mem[other].right, c, t);
        SiblingFields(mem, root, c', t);
        other := mem[parent].left;
      }
      t' := EraseOuterRight(other, parent, mem[other].left, ColorBit(mem[parent].parentColor), c', t);
      done, c' := true, Top;
    }

    method EraseFixRight(parent: Addr, ghost c: Ctx, ghost t: Tree) returns (done: bool, ghost c': Ctx, ghost t': Tree)
      requires Holds(mem, root, c, t) && Short(c, t) && !IsRed(t) && c.InRight? && parent == c.addr
      modifies `mem, `root
      ensures Holds(mem, root, c', t') && Kept(old(mem), mem, Plug(c, t), Plug(c', t'))
      ensures done ==> IsRb(Plug(c', t')) && c'.Top? && t'.Node?
      ensures !done ==> Short(c', t') && t'.Node? && t'.addr == parent && Excess(c', t') < Excess(c, t)
    {
      ShortSibling(c, t);
      SiblingFields(mem, root, c, t);
      hide Holds;
      var other := mem[parent].left;
      c' := c;
      if RedAt(other) {
        c' := EraseRedSiblingRight(other, parent, c, t);
        ShortSibling(c', t);
        SiblingFields(mem, root, c', t);
        other := mem[parent].left;
      }
      ghost var c1 := c';
      done, c', t' := EraseBlackSiblingRight(other, parent, c1, t);
    }

    method EraseRound(node0: Addr, parent0: Addr, ghost c: Ctx, ghost t: Tree)
        returns (node: Addr, parent: Addr, done: bool, ghost c': Ctx, ghost t': Tree)
      requires Holds(mem, root, c, t) && Short(c, t) && !IsRed(t) && !c.Top?
      requires node0 == Root(t) && parent0 == ParentOf(c)
      modifies `mem, `root
      ensures Holds(mem, root, c', t') && Kept(old(mem), mem, Plug(c, t), Plug(c', t'))
      ensures Near(mem, root, c', t') && node == Root(t') && parent == ParentOf(c')
      ensures if done then IsRb(Plug(c', t')) && c'.Top? else Short(c', t') && Excess(c', t') < Excess(c, t)
    {
      hide Holds;
      ShortSibling(c, t);
      SiblingFields(mem, root, c, t);
      if mem[parent0].left == node0 {
        done, c', t' := EraseFixLeft(parent0, c, t);
      } else {
        done, c', t' := EraseFixRight(parent0, c, t);
      }
      NodeFields(mem, root, c', t');
      if done {
        node, parent := root, 0;
      } else {
        node := parent0;
        parent := ParentBits(mem[node].parentColor);
      }
    }

    /** `__rb_erase_color`: the paths through the focus are one black node short. */
    method EraseColor(node0: Addr, parent0: Addr, ghost c0: Ctx, ghost t0: Tree) returns (ghost shape: Tree)
      requires Holds(mem, root, c0, t0) && Short(c0, t0) && node0 == Root(t0) && parent0 == ParentOf(c0)
      modifies `mem, `root
      ensures Holds(mem, root, Top, shape) && IsRb(shape)
      ensures Kept(old(mem), mem, Plug(c0, t0), shape)
    {
      hide Holds;
      var node, parent, done := node0, parent0, false;
      ghost var c, t := c0, t0;
      NodeFields(mem, root, c, t);
      while NotRed(node) && node != root && !done
        invariant Holds(mem, root, c, t) && Kept(old(mem), mem, Plug(c0, t0), Plug(c, t))
        invariant Near(mem, root, c, t) && node == Root(t) && parent == ParentOf(c)
        invariant done ==> IsRb(Plug(c, t)) && c.Top?
        invariant !done ==> Short(c, t)
        decreases !done, Excess(c, t)
      {
        node, parent, done, c, t := EraseRound(node, parent, c, t);
      }
      shape := Plug(c, Paint(t, Black));
      if !done {
        ShortDone(c, t);
      }
      if node != 0 {
        SetColor(node, Black, c, t);
      }
      Refocus(mem, root, c, Paint(t, Black), Top, shape);
    }

    /** A node with at most one child is taken out: its child moves up. */
    method Splice(node: Addr, child: Addr, ghost c: Ctx, ghost t: Tree) returns (parent: Addr)
      requires Holds(mem, root, c, t) && t.Node? && t.addr == node && (t.left.Leaf? || t.right.Leaf?)
      requires child == Root(OnlyChild(t))
      modifies `mem, `root
      ensures Holds(mem, root, c, OnlyChild(t)) && parent == ParentOf(c)
      ensures SameOutside(old(mem), mem, Addrs(Plug(c, t)) - {node})
    {
      OnlyChildFields(mem, root, c, t);
      parent := ParentBits(mem[node].parentColor);
      if child != 0 {
        mem := PutParent(mem, child, parent);
      }
      ReplaceChild(parent, node, child, c);
      Spliced(old(mem), mem, old(root), root, c, t);
      SameOutsideWiden(old(mem), mem, {child, parent}, Addrs(Plug(c, t)) - {node});
    }

    /** The same for the successor of `victim`, whose parent is `victim` itself or a node further left. */
    method DetachSuccessor(victim: Addr, node: Addr, child: Addr, ghost c: Ctx, ghost t: Tree) returns (parent: Addr)
      requires Holds(mem, root, c, t) && t.Node? && t.addr == node && t.left.Leaf? && child == Root(t.right)
      requires !c.Top? && (c.InRight? <==> c.addr == victim)
      modifies `mem, `root
      ensures Holds(mem, root, c, t.right) && parent == if c.addr == victim then node else c.addr
      ensures SameOutside(old(mem), mem, Addrs(Plug(c, t)) - {node})
    {
      OnlyChildFields(mem, root, c, t);
      parent := ParentBits(mem[node].parentColor);
      if child != 0 {
        mem := PutParent(mem, child, parent);
      }
      if parent == victim {
        mem := PutRight(mem, parent, child);
        parent := node;
      } else {
        mem := PutLeft(mem, parent, child);
      }
      Spliced(old(mem), mem, old(root), root, c, t);
      SameOutsideWiden(old(mem), mem, {child, c.addr}, Addrs(Plug(c, t)) - {node});
    }

    /** `node`, which is outside the tree, takes the place of `victim`. */
    method TakePlace(victim: Addr, node: Addr, ghost c: Ctx, ghost t: Tree)
      requires Holds(mem, root, c, t) && t.Node? && t.addr == victim && t.left.Node?
      requires 0 < node < |mem| && node !in Addrs(Plug(c, t))
      modifies `mem, `root
      ensures Holds(mem, root, c, t.(addr := node))
      ensures SameOutside(old(mem), mem, Addrs(Plug(c, t)) - {victim} + {node})
    {
      PlaceFields(mem, root, c, t, node);
      mem := mem[node := mem[victim]];
      var parent := ParentBits(mem[victim].parentColor);
      ReplaceChild(parent, victim, node, c);
      mem := PutParent(mem, mem[victim].left, node);
      if mem[victim].right != 0 {
        mem := PutParent(mem, mem[victim].right, node);
      }
      Replaced(old(mem), mem, old(root), root, c, t, node);
      SameOutsideWiden(old(mem), mem, {node, Root(t.left), Root(t.right), parent},
                       Addrs(Plug(c, t)) - {victim} + {node});
    }

    method EraseSingle(node: Addr, child: Addr, ghost c: Ctx, ghost t: Tree) returns (ghost s: Tree)
      requires Holds(mem, root, c, t) && IsRb(Plug(c, t)) && t.Node? && t.addr == node
      requires (t.left.Leaf? || t.right.Leaf?) && child == Root(OnlyChild(t))
      modifies `mem, `root
      ensures Holds(mem, root, Top, s) && IsRb(s) && Erased(old(mem), mem, Plug(c, t), s, node)
    {
      FocusFields(mem, root, c, t);
      SpliceWalk(mem, root, c, t);
      hide Holds;
      AfterSplice(c, t, OnlyChild(t));
      var color := ColorBit(mem[node].parentColor);
      var parent := Splice(node, child, c, t);
      s := Plug(c, OnlyChild(t));
      Refocus(mem, root, c, OnlyChild(t), Top, s);
      if color == Black {
        s := EraseColor(child, parent, c, OnlyChild(t));
      }
    }

    /** The leftmost node of the right subtree. */
    method Successor(victim: Addr, ghost base: Ctx, ghost r: Tree) returns (node: Addr, ghost inner: Ctx, ghost u: Tree)
      requires Holds(mem, root, base, r) && r.Node? && base.InRight? && base.addr == victim
      ensures Holds(mem, root, Compose(inner, base), u) && u.Node? && u.addr == node && u.left.Leaf?
      ensures Plug(inner, u) == r && Before(inner) == [] && (inner.Top? || inner.InLeft?)
      ensures InOrder(r) != [] && node == InOrder(r)[0]
      ensures var d := Compose(inner, base); !d.Top? && (d.InRight? <==> d.addr == victim)
    {
      FocusFields(mem, root, base, r);
      assert victim !in Addrs(r);
      hide Holds;
      node := mem[victim].right;
      inner, u := Top, r;
      while mem[node].left != 0
        invariant Holds(mem, root, Compose(inner, base), u) && u.Node? && u.addr == node < |mem|
        invariant mem[node].left == Root(u.left)
        invariant Plug(inner, u) == r && Before(inner) == [] && (inner.Top? || inner.InLeft?)
        invariant inner.InLeft? ==> inner.addr in Addrs(r)
        decreases u
      {
        PlugAddrs(inner, u);
        ChildNotNull(mem, root, Compose(inner, base), u);
        node := mem[node].left;
        ghost var inner' := InLeft(u.color, u.addr, u.right, inner);
        Refocus(mem, root, Compose(inner, base), u, Compose(inner', base), u.left);
        inner, u := inner', u.left;
        FocusFields(mem, root, Compose(inner, base), u);
      }
      ChildNotNull(mem, root, Compose(inner, base), u);
      FirstOut(inner, u);
    }

    /** The successor is taken out and then takes the place of `victim`; `parent` is where it was missing. */
    method MoveSuccessor(victim: Addr, node: Addr, child: Addr, ghost c: Ctx, ghost t: Tree, ghost inner: Ctx,
                         ghost u: Tree)
        returns (parent: Addr)
      requires t.Node? && t.addr == victim && t.left.Node? && u.Node? && u.addr == node && u.left.Leaf?
      requires Plug(inner, u) == t.right && (inner.Top? || inner.InLeft?) && child == Root(u.right)
      requires var d := Compose(inner, InRight(t.color, t.left, victim, c));
        Holds(mem, root, d, u) && !d.Top? && (d.InRight? <==> d.addr == victim)
      requires var t1 := Plug(c, Node(t.color, t.left, victim, Plug(inner, u.right)));
        node !in Addrs(t1) && Addrs(t1) + {node} <= Addrs(Plug(c, t))
      modifies `mem, `root
      ensures var d1 := Compose(inner, InRight(t.color, t.left, node, c));
        Holds(mem, root, d1, u.right) && parent == ParentOf(d1)
      ensures SameOutside(old(mem), mem, Addrs(Plug(c, t)))
    {
      ghost var d := Compose(inner, InRight(t.color, t.left, victim, c));
      ghost var d1 := Compose(inner, InRight(t.color, t.left, node, c));
      ghost var t1 := Node(t.color, t.left, victim, Plug(inner, u.right));
      FocusFields(mem, root, d, u);
      hide Holds;
      PlugCompose(inner, InRight(t.color, t.left, victim, c), u);
      PlugCompose(inner, InRight(t.color, t.left, victim, c), u.right);
      PlugCompose(inner, InRight(t.color, t.left, node, c), u.right);
      parent := DetachSuccessor(victim, node, child, d, u);
      Refocus(mem, root, d, u.right, c, t1);
      TakePlace(victim, node, c, t1);
      Refocus(mem, root, c, t1.(addr := node), d1, u.right);
    }

    method EraseDouble(victim: Addr, ghost c: Ctx, ghost t: Tree) returns (ghost s: Tree)
      requires Holds(mem, root, c, t) && IsRb(Plug(c, t)) && t.Node? && t.addr == victim
      requires t.left.Node? && t.right.Node?
      modifies `mem, `root
      ensures Holds(mem, root, Top, s) && IsRb(s) && Erased(old(mem), mem, Plug(c, t), s, victim)
    {
      hide Holds, IsRb, Short, TakenOut, InOrder;
      FocusFields(mem, root, c, t);
      ghost var base := InRight(t.color, t.left, victim, c);
      Refocus(mem, root, c, t, base, t.right);
      var node;
      ghost var inner, u;
      node, inner, u := Successor(victim, base, t.right);
      FocusFields(mem, root, Compose(inner, base), u);
      SuccessorWalk(mem, root, c, t, inner, u);

      var child := mem[node].right;
      var color := ColorBit(mem[node].parentColor);
      var parent := MoveSuccessor(victim, node, child, c, t, inner, u);
      ghost var d1 := Compose(inner, InRight(t.color, t.left, node, c));
      s := Plug(d1, u.right);
      Refocus(mem, root, d1, u.right, Top, s);
      if color == Black {
        s := EraseColor(child, parent, d1, u.right);
      }
    }

    /** `rb_erase`. */
    method Erase(node: Addr)
      requires Valid() && node in Addrs(shape)
      modifies this
      ensures Valid() && Erased(old(mem), mem, old(shape), shape, node)
    {
      ghost var c, t := FocusOn(shape, node, Top);
      Refocus(mem, root, Top, shape, c, t);
      FocusFields(mem, root, c, t);
      ChildNotNull(mem, root, c, t);
      hide Holds;
      if mem[node].left == 0 {
        shape := EraseSingle(node, mem[node].right, c, t);
      } else if mem[node].right == 0 {
        shape := EraseSingle(node, mem[node].left, c, t);
      } else {
        shape := EraseDouble(node, c, t);
      }
    }

    /** The packed word of a node outside the tree is set to zero. */
    method ClearNode(node: Addr)
      requires Valid() && 0 < node < |mem| && node !in Addrs(shape)
      modifies `mem
      ensures Valid() && mem == old(mem)[node := old(mem)[node].(parentColor := 0)]
    {
      mem := mem[node := mem[node].(parentColor := 0)];
      RepFrame(old(mem), mem, shape, 0, {node});
    }

    /** `rb_link_node`: a red leaf is stored at the empty position `c`. */
    method LinkNode(node: Addr, parent: Addr, onLeft: bool, ghost c: Ctx)
      requires Holds(mem, root, Top, Plug(c, Leaf)) && 0 < node < |mem| && node !in Addrs(Plug(c, Leaf))
      requires parent == ParentOf(c) && (onLeft <==> c.InLeft?)
      modifies `mem, `root
      ensures Holds(mem, root, c, Node(Red, Leaf, node, Leaf))
      ensures SameOutside(old(mem), mem, Addrs(Plug(c, Leaf)) + {node})
    {
      hide Holds, Plug, Pack, ParentBits, ColorBit;
      PlugTop(Plug(c, Leaf));
      Refocus(mem, root, Top, Plug(c, Leaf), c, Leaf);
      FocusFields(mem, root, c, Leaf);
      PlugAddrs(c, Leaf);
      assert !c.Top? ==> c.addr in CtxAddrs(c);
      mem := mem[node := RbNode(Pack(parent, Red), 0, 0)];
      if parent == 0 {
        root := node;
      } else if onLeft {
        mem := PutLeft(mem, parent, node);
      } else {
        mem := PutRight(mem, parent, node);
      }
      Linked(old(mem), mem, old(root), root, c, node);
    }

    /** `rb_link_node` at the empty position `c`, then `rb_insert_color`. */
    method LinkAndColor(node: Addr, parent: Addr, onLeft: bool, ghost c: Ctx)
      requires Valid() && shape == Plug(c, Leaf) && 0 < node < |mem| && node !in Addrs(shape)
      requires parent == ParentOf(c) && (onLeft <==> c.InLeft?)
      modifies this
      ensures Valid() && InOrder(shape) == Before(c) + [node] + After(c)
      ensures Addrs(shape) == old(Addrs(shape)) + {node}
      ensures SameOutside(old(mem), mem, old(Addrs(shape)) + {node})
    {
      hide Holds;
      LinkNode(node, parent, onLeft, c);
      AfterLink(c, node);
      LinkWalk(c, node);
      shape := InsertColor(node, c, Node(Red, Leaf, node, Leaf));
    }
  }

  /** From `t` to `t'`: exactly `a` left the in-order sequence, and no node outside was touched. */
  ghost predicate Erased(m: Mem, m': Mem, t: Tree, t': Tree, a: Addr) {
    && TakenOut(InOrder(t), a, InOrder(t')) && Addrs(t') == Addrs(t) - {a}
    && SameOutside(m, m', Addrs(t))
  }

  /** The packed word of a linked node is not zero: the root is black, any other node has a parent. */
  lemma {:induction false} LinkedWord(m: Mem, root: Addr, t: Tree, a: Addr)
    requires Holds(m, root, Top, t) && IsRb(t) && a in Addrs(t)
    ensures 0 < a < |m| && m[a].parentColor != 0
  {
    var c, u := FocusOn(t, a, Top);
    Refocus(m, root, Top, t, c, u);
    FocusFields(m, root, c, u);
  }

  lemma {:induction false} SpliceWalk(m: Mem, root: Addr, c: Ctx, t: Tree)
    requires Holds(m, root, c, t) && t.Node? && (t.left.Leaf? || t.right.Leaf?)
    ensures TakenOut(InOrder(Plug(c, t)), t.addr, InOrder(Plug(c, OnlyChild(t))))
    ensures Addrs(Plug(c, OnlyChild(t))) == Addrs(Plug(c, t)) - {t.addr}
  {
    hide Rep, RepCtx, Plug, CtxAddrs, Before, After, TakenOut, UniqCtx;
    var child := OnlyChild(t);
    PlugInOrder(c, t);
    PlugInOrder(c, child);
    PlugAddrs(c, t);
    PlugAddrs(c, child);
    UniqNode(t);
    InOrderTakenOut(Before(c), InOrder(t.left), t.addr, InOrder(t.right), After(c), InOrder(child));
  }

  lemma {:induction false} InOrderTakenOut(b: seq<Addr>, l: seq<Addr>, a: Addr, r: seq<Addr>, e: seq<Addr>,
                                           n: seq<Addr>)
    requires n == l + r
    ensures TakenOut(b + (l + [a] + r) + e, a, b + n + e)
  {
    assert b + (l + [a] + r) + e == (b + l) + [a] + (r + e);
    assert b + n + e == (b + l) + (r + e);
    TakenOutAt(b + (l + [a] + r) + e, b + l, a, r + e, b + n + e);
  }

  lemma {:induction false} PlugTop(t: Tree)
    ensures Plug(Top, t) == t
  {
  }

  lemma {:induction false} LinkWalk(c: Ctx, a: Addr)
    ensures InOrder(Plug(c, Node(Red, Leaf, a, Leaf))) == Before(c) + [a] + After(c)
    ensures Addrs(Plug(c, Node(Red, Leaf, a, Leaf))) == Addrs(Plug(c, Leaf)) + {a}
  {
    PlugInOrder(c, Node(Red, Leaf, a, Leaf));
    PlugAddrs(c, Node(Red, Leaf, a, Leaf));
    PlugAddrs(c, Leaf);
  }

  lemma {:induction false} EdgeInside(c: Ctx, t: Tree, low: Tree)
    requires t.Node? && low.Node? && (low == t.left || low == t.right)
    ensures {t.addr, low.addr, Root(low.left), Root(low.right), ParentOf(c)} - {0} <= Addrs(Plug(c, t))
  {
    PlugAddrs(c, t);
    assert Addrs(low) <= Addrs(t);
    assert Addrs(low.left) <= Addrs(low) && Addrs(low.right) <= Addrs(low);
  }

  /** The effect on the in-order sequence of putting the successor in the place of a node with two children. */
  lemma {:induction false} SuccessorWalk(m: Mem, root: Addr, c: Ctx, t: Tree, inner: Ctx, u: Tree)
    requires Holds(m, root, c, t) && IsRb(Plug(c, t)) && t.Node? && u.Node? && u.left.Leaf?
    requires Plug(inner, u) == t.right && Before(inner) == []
    ensures var victim, s := t.addr, u.addr;
      var t0 := Plug(c, t);
      var d1 := Compose(inner, InRight(t.color, t.left, s, c));
      && Addrs(Plug(c, Node(t.color, t.left, victim, Plug(inner, u.right)))) == Addrs(t0) - {s} && s in Addrs(t0)
      && TakenOut(InOrder(t0), victim, InOrder(Plug(d1, u.right))) && Addrs(Plug(d1, u.right)) == Addrs(t0) - {victim}
      && (u.color == Black ==> Short(d1, u.right)) && (u.color == Red ==> IsRb(Plug(d1, u.right)))
  {
    var victim, s := t.addr, u.addr;
    var b1 := InRight(t.color, t.left, s, c);
    PlugCompose(inner, b1, u);
    PlugCompose(inner, b1, u.right);
    RenameRb(c, t, s);
    AfterSplice(Compose(inner, b1), u, u.right);
    SuccessorAddrs(c, t, inner, u);
    SuccessorOrder(c, t, inner, u);
  }

  lemma {:induction false} SuccessorAddrs(c: Ctx, t: Tree, inner: Ctx, u: Tree)
    requires Apart(c, t) && t.Node? && u.Node? && u.left.Leaf? && Plug(inner, u) == t.right
    ensures var victim, s := t.addr, u.addr;
      && s != victim && s in Addrs(Plug(c, t))
      && Addrs(Plug(c, Node(t.color, t.left, victim, Plug(inner, u.right)))) == Addrs(Plug(c, t)) - {s}
      && Addrs(Plug(c, Node(t.color, t.left, s, Plug(inner, u.right)))) == Addrs(Plug(c, t)) - {victim}
  {
    hide Plug, CtxAddrs, Uniq, UniqCtx;
    UniqNode(t);
    InnerAddrs(inner, u);
    PlugAddrs(c, t);
    PlugAddrs(c, Node(t.color, t.left, t.addr, Plug(inner, u.right)));
    PlugAddrs(c, Node(t.color, t.left, u.addr, Plug(inner, u.right)));
  }

  lemma {:induction false} InnerAddrs(inner: Ctx, u: Tree)
    requires Uniq(Plug(inner, u)) && u.Node? && u.left.Leaf?
    ensures Addrs(Plug(inner, u)) == Addrs(Plug(inner, u.right)) + {u.addr} && u.addr !in Addrs(Plug(inner, u.right))
  {
    hide Plug, CtxAddrs, UniqCtx;
    PlugAddrs(inner, u);
    PlugAddrs(inner, u.right);
    UniqNode(u);
  }

  /** The node at the left end of a tree comes first in its in-order walk. */
  lemma {:induction false} FirstOut(inner: Ctx, u: Tree)
    requires u.Node? && u.left.Leaf? && Before(inner) == []
    ensures InOrder(Plug(inner, u)) == [u.addr] + InOrder(Plug(inner, u.right))
  {
    hide Plug, Before, After;
    PlugInOrder(inner, u);
    PlugInOrder(inner, u.right);
  }

  lemma {:induction false} SuccessorOrder(c: Ctx, t: Tree, inner: Ctx, u: Tree)
    requires t.Node? && u.Node? && u.left.Leaf? && Plug(inner, u) == t.right && Before(inner) == []
    ensures TakenOut(InOrder(Plug(c, t)), t.addr, InOrder(Plug(c, Node(t.color, t.left, u.addr, Plug(inner, u.right)))))
  {
    hide Plug, Before, After;
    var r := Plug(inner, u.right);
    var l, s := InOrder(t.left), [u.addr] + InOrder(r);
    FirstOut(inner, u);
    PlugInOrder(c, t);
    PlugInOrder(c, Node(t.color, t.left, u.addr, r));
    assert l + [u.addr] + InOrder(r) == l + s;
    InOrderTakenOut(Before(c), l, t.addr, s, After(c), l + s);
  }
}
