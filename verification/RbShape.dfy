/**
 Red-black trees as values.

 `Tree` is the shape that a linked structure of nodes stands for.  `Ctx` is a
 tree with one subtree missing: the path from the hole up to the root.  A pair
 (context, subtree) is how the rebalancing loops see the tree, because they walk
 from a node towards the root.
 */
module RbShape {

  /** The address of a node; 0 is the null pointer. */
  type Addr = nat

  datatype Color = Red | Black

  datatype Tree = Leaf | Node(color: Color, left: Tree, addr: Addr, right: Tree)

  datatype Ctx =
    | Top
    | InLeft(color: Color, addr: Addr, right: Tree, up: Ctx)
    | InRight(color: Color, left: Tree, addr: Addr, up: Ctx)

  function Root(t: Tree): Addr {
    if t.Leaf? then 0 else t.addr
  }

  /** The address of the node whose child is the hole of `c`. */
  function ParentOf(c: Ctx): Addr {
    if c.Top? then 0 else c.addr
  }

  function Plug(c: Ctx, t: Tree): Tree
    decreases c
  {
    match c
    case Top => t
    case InLeft(k, a, r, up) => Plug(up, Node(k, t, a, r))
    case InRight(k, l, a, up) => Plug(up, Node(k, l, a, t))
  }

  /** The subtree of the parent of the hole, when the hole is filled with `t`. */
  function Fill(c: Ctx, t: Tree): (p: Tree)
    requires !c.Top?
    ensures p.Node? && p.addr == c.addr && p.color == c.color
    ensures Plug(c, t) == Plug(c.up, p)
  {
    if c.InLeft? then Node(c.color, t, c.addr, c.right) else Node(c.color, c.left, c.addr, t)
  }

  /** The other child of the parent of the hole. */
  function Sibling(c: Ctx): Tree
    requires !c.Top?
  {
    if c.InLeft? then c.right else c.left
  }

  /** The context of the sibling, when the hole of `c` is filled with `t`. */
  function Beside(c: Ctx, t: Tree): (d: Ctx)
    requires !c.Top?
    ensures Plug(d, Sibling(c)) == Plug(c, t) && !d.Top? && Sibling(d) == t
  {
    if c.InLeft? then InRight(c.color, t, c.addr, c.up) else InLeft(c.color, c.addr, t, c.up)
  }

  /** `t` with its root coloured `k`. */
  function Paint(t: Tree, k: Color): Tree {
    if t.Leaf? then t else t.(color := k)
  }

  function PaintSibling(c: Ctx, k: Color): Ctx
    requires !c.Top?
  {
    if c.InLeft? then c.(right := Paint(c.right, k)) else c.(left := Paint(c.left, k))
  }

  function Depth(c: Ctx): nat {
    if c.Top? then 0 else 1 + Depth(c.up)
  }

  /** `inner` hung below the hole of `outer`. */
  function Compose(inner: Ctx, outer: Ctx): Ctx {
    match inner
    case Top => outer
    case InLeft(k, a, r, up) => InLeft(k, a, r, Compose(up, outer))
    case InRight(k, l, a, up) => InRight(k, l, a, Compose(up, outer))
  }

  // --------------------------------------------------------------------------
  // Addresses and order
  // --------------------------------------------------------------------------

  function Addrs(t: Tree): set<Addr> {
    match t
    case Leaf => {}
    case Node(_, l, a, r) => Addrs(l) + {a} + Addrs(r)
  }

  function CtxAddrs(c: Ctx): set<Addr> {
    match c
    case Top => {}
    case InLeft(_, a, r, up) => {a} + Addrs(r) + CtxAddrs(up)
    case InRight(_, l, a, up) => {a} + Addrs(l) + CtxAddrs(up)
  }

  /** No address occurs twice. */
  ghost predicate Uniq(t: Tree) {
    match t
    case Leaf => true
    case Node(_, l, a, r) =>
      a !in Addrs(l) && a !in Addrs(r) && Addrs(l) !! Addrs(r) && Uniq(l) && Uniq(r)
  }

  ghost predicate UniqCtx(c: Ctx) {
    match c
    case Top => true
    case InLeft(_, a, r, up) =>
      a !in Addrs(r) && Uniq(r) && a !in CtxAddrs(up) && Addrs(r) !! CtxAddrs(up) && UniqCtx(up)
    case InRight(_, l, a, up) =>
      a !in Addrs(l) && Uniq(l) && a !in CtxAddrs(up) && Addrs(l) !! CtxAddrs(up) && UniqCtx(up)
  }

  /** No address occurs twice in `Plug(c, t)`. */
  ghost predicate Apart(c: Ctx, t: Tree) {
    Uniq(t) && UniqCtx(c) && Addrs(t) !! CtxAddrs(c)
  }

  function InOrder(t: Tree): seq<Addr> {
    match t
    case Leaf => []
    case Node(_, l, a, r) => InOrder(l) + [a] + InOrder(r)
  }

  /** What comes before the hole in an in-order walk. */
  function Before(c: Ctx): seq<Addr> {
    match c
    case Top => []
    case InLeft(_, _, _, up) => Before(up)
    case InRight(_, l, a, up) => Before(up) + InOrder(l) + [a]
  }

  /** What comes after the hole in an in-order walk. */
  function After(c: Ctx): seq<Addr> {
    match c
    case Top => []
    case InLeft(_, a, r, up) => [a] + InOrder(r) + After(up)
    case InRight(_, _, _, up) => After(up)
  }

  lemma {:induction false} PlugInOrder(c: Ctx, t: Tree)
    ensures InOrder(Plug(c, t)) == Before(c) + InOrder(t) + After(c)
    decreases c
  {
    match c
    case Top =>
    case InLeft(k, a, r, up) =>
      PlugInOrder(up, Node(k, t, a, r));
      RegroupRight(Before(up), InOrder(t), [a], InOrder(r), After(up));
    case InRight(k, l, a, up) =>
      PlugInOrder(up, Node(k, l, a, t));
      RegroupLeft(Before(up), InOrder(l), [a], InOrder(t), After(up));
  }

  lemma {:induction false} RegroupRight(b: seq<Addr>, t: seq<Addr>, a: seq<Addr>, r: seq<Addr>, e: seq<Addr>)
    ensures b + (t + a + r) + e == b + t + (a + r + e)
  {
  }

  lemma {:induction false} RegroupLeft(b: seq<Addr>, l: seq<Addr>, a: seq<Addr>, t: seq<Addr>, e: seq<Addr>)
    ensures b + (l + a + t) + e == (b + l + a) + t + e
  {
  }

  lemma {:induction false} PlugAddrs(c: Ctx, t: Tree)
    ensures Addrs(Plug(c, t)) == CtxAddrs(c) + Addrs(t)
    ensures Uniq(Plug(c, t)) <==> Apart(c, t)
    decreases c
  {
    match c
    case Top =>
    case InLeft(k, a, r, up) => PlugAddrs(up, Node(k, t, a, r));
    case InRight(k, l, a, up) => PlugAddrs(up, Node(k, l, a, t));
  }

  /** The same nodes in the same order. */
  ghost predicate SameWalk(t: Tree, t': Tree) {
    InOrder(t) == InOrder(t') && Addrs(t) == Addrs(t')
  }

  /** Replacing a subtree by one with the same in-order sequence keeps the sequence of the whole. */
  lemma {:induction false} PlugSameOrder(c: Ctx, t: Tree, t': Tree)
    requires InOrder(t) == InOrder(t')
    ensures SameWalk(Plug(c, t), Plug(c, t'))
  {
    PlugInOrder(c, t);
    PlugInOrder(c, t');
    InOrderAddrs(Plug(c, t));
    InOrderAddrs(Plug(c, t'));
  }

  lemma {:induction false} PlugNode(c: Ctx, t: Tree)
    requires t.Node? || !c.Top?
    ensures Plug(c, t).Node?
    ensures !c.Top? ==> Plug(c, t).addr in CtxAddrs(c)
    decreases c
  {
    if !c.Top? {
      PlugNode(c.up, Fill(c, t));
    }
  }

  lemma InOrderAddrs(t: Tree)
    ensures forall a :: a in InOrder(t) <==> a in Addrs(t)
  {
  }

  lemma {:induction false} PlugCompose(inner: Ctx, outer: Ctx, t: Tree)
    ensures Plug(Compose(inner, outer), t) == Plug(outer, Plug(inner, t))
    decreases inner
  {
    match inner
    case Top =>
    case InLeft(k, a, r, up) => PlugCompose(up, outer, Node(k, t, a, r));
    case InRight(k, l, a, up) => PlugCompose(up, outer, Node(k, l, a, t));
  }

  /** Where a given address sits in a tree. */
  lemma {:induction false} FocusOn(t: Tree, a: Addr, outer: Ctx) returns (c: Ctx, s: Tree)
    requires a in Addrs(t)
    ensures s.Node? && s.addr == a
    ensures Plug(c, s) == Plug(outer, t)
    decreases t
  {
    if t.addr == a {
      c, s := outer, t;
    } else if a in Addrs(t.left) {
      c, s := FocusOn(t.left, a, InLeft(t.color, t.addr, t.right, outer));
    } else {
      c, s := FocusOn(t.right, a, InRight(t.color, t.left, t.addr, outer));
    }
  }

  /** `s'` is `s` without one occurrence of `a`, everything else keeping its place. */
  ghost predicate TakenOut(s: seq<Addr>, a: Addr, s': seq<Addr>) {
    exists i :: 0 <= i < |s| && s[i] == a && s' == s[..i] + s[i + 1..]
  }

  lemma {:induction false} TakenOutAt(s: seq<Addr>, p: seq<Addr>, a: Addr, q: seq<Addr>, s': seq<Addr>)
    requires s == p + [a] + q && s' == p + q
    ensures TakenOut(s, a, s')
  {
    assert s[|p|] == a && s[..|p|] == p && s[|p| + 1..] == q;
  }

  // --------------------------------------------------------------------------
  // Rotations
  // --------------------------------------------------------------------------

  function RotL(t: Tree): Tree
    requires t.Node? && t.right.Node?
  {
    Node(t.right.color, Node(t.color, t.left, t.addr, t.right.left), t.right.addr, t.right.right)
  }

  function RotR(t: Tree): Tree
    requires t.Node? && t.left.Node?
  {
    Node(t.left.color, t.left.left, t.left.addr, Node(t.color, t.left.right, t.addr, t.right))
  }

  lemma {:induction false} UniqNode(t: Tree)
    requires t.Node? && Uniq(t)
    ensures t.addr !in Addrs(t.left) && t.addr !in Addrs(t.right) && Addrs(t.left) !! Addrs(t.right)
    ensures Uniq(t.left) && Uniq(t.right)
    ensures Addrs(t) == Addrs(t.left) + {t.addr} + Addrs(t.right)
    ensures Root(t.left) != 0 ==> Root(t.left) in Addrs(t.left)
    ensures Root(t.right) != 0 ==> Root(t.right) in Addrs(t.right)
  {
  }

  lemma {:induction false} ApartRotL(c: Ctx, t: Tree)
    requires t.Node? && t.right.Node? && Apart(c, t)
    ensures Apart(c, RotL(t)) && Addrs(RotL(t)) == Addrs(t)
  {
    assert Uniq(t.right) && Addrs(t.right) == Addrs(t.right.left) + {t.right.addr} + Addrs(t.right.right);
    assert Uniq(RotL(t).left);
  }

  lemma {:induction false} ApartRotR(c: Ctx, t: Tree)
    requires t.Node? && t.left.Node? && Apart(c, t)
    ensures Apart(c, RotR(t)) && Addrs(RotR(t)) == Addrs(t)
  {
    assert Uniq(t.left) && Addrs(t.left) == Addrs(t.left.left) + {t.left.addr} + Addrs(t.left.right);
    assert Uniq(RotR(t).right);
  }

  /** Rotations keep the in-order sequence. */
  lemma {:induction false} RotLInOrder(t: Tree)
    requires t.Node? && t.right.Node?
    ensures InOrder(RotL(t)) == InOrder(t)
  {
  }

  lemma {:induction false} RotRInOrder(t: Tree)
    requires t.Node? && t.left.Node?
    ensures InOrder(RotR(t)) == InOrder(t)
  {
  }

  // --------------------------------------------------------------------------
  // The red-black conditions
  // --------------------------------------------------------------------------

  predicate IsRed(t: Tree) {
    t.Node? && t.color == Red
  }

  function Weight(k: Color): nat {
    if k == Black then 1 else 0
  }

  /** Every path from the root of `t` to a leaf passes `h` black nodes. */
  predicate Balanced(t: Tree, h: nat) {
    match t
    case Leaf => h == 0
    case Node(k, l, _, r) =>
      Weight(k) <= h && Balanced(l, h - Weight(k)) && Balanced(r, h - Weight(k))
  }

  function BlackHeight(t: Tree): nat {
    if t.Leaf? then 0 else Weight(t.color) + BlackHeight(t.left)
  }

  lemma {:induction false} BalancedHeight(t: Tree, h: nat)
    requires Balanced(t, h)
    ensures h == BlackHeight(t)
  {
    if t.Node? {
      BalancedHeight(t.left, h - Weight(t.color));
    }
  }

  predicate NoRedRed(t: Tree) {
    match t
    case Leaf => true
    case Node(k, l, _, r) =>
      (k == Red ==> !IsRed(l) && !IsRed(r)) && NoRedRed(l) && NoRedRed(r)
  }

  /** A red-black tree: black root, no red node with a red child, equal black heights. */
  predicate IsRb(t: Tree) {
    !IsRed(t) && NoRedRed(t) && Balanced(t, BlackHeight(t))
  }

  predicate RedFrame(c: Ctx) {
    !c.Top? && c.color == Red
  }

  /** Filling the hole of `c` with a tree of black height `h` gives a balanced tree. */
  predicate CtxBalanced(c: Ctx, h: nat) {
    match c
    case Top => true
    case InLeft(k, _, r, up) => Balanced(r, h) && CtxBalanced(up, h + Weight(k))
    case InRight(k, l, _, up) => Balanced(l, h) && CtxBalanced(up, h + Weight(k))
  }

  /** No red-red edge and no red root in `c`, not counting the edge into the hole. */
  predicate CtxNoRedRed(c: Ctx) {
    match c
    case Top => true
    case InLeft(k, _, r, up) =>
      NoRedRed(r) && (k == Red ==> !IsRed(r) && !up.Top? && !RedFrame(up)) && CtxNoRedRed(up)
    case InRight(k, l, _, up) =>
      NoRedRed(l) && (k == Red ==> !IsRed(l) && !up.Top? && !RedFrame(up)) && CtxNoRedRed(up)
  }

  /** The whole tree satisfies the conditions when both parts do and the joining edge is fine. */
  lemma {:induction false} PlugIsRb(c: Ctx, t: Tree, h: nat)
    requires NoRedRed(t) && Balanced(t, h)
    requires CtxBalanced(c, h) && CtxNoRedRed(c)
    requires IsRed(t) ==> !c.Top? && !RedFrame(c)
    ensures IsRb(Plug(c, t))
    decreases c
  {
    match c
    case Top => BalancedHeight(t, h);
    case InLeft(k, a, r, up) => PlugIsRb(up, Node(k, t, a, r), h + Weight(k));
    case InRight(k, l, a, up) => PlugIsRb(up, Node(k, l, a, t), h + Weight(k));
  }

  /** Conversely, a red-black tree can be opened at any subtree. */
  lemma {:induction false} RbSplit(c: Ctx, t: Tree)
    requires IsRb(Plug(c, t))
    ensures NoRedRed(t) && Balanced(t, BlackHeight(t))
    ensures CtxBalanced(c, BlackHeight(t)) && CtxNoRedRed(c)
    ensures IsRed(t) ==> !c.Top? && !RedFrame(c)
  {
    hide Plug;
    BalanceSplit(c, t);
    RedSplit(c, t);
  }

  lemma {:induction false} BalanceSplit(c: Ctx, t: Tree)
    requires Balanced(Plug(c, t), BlackHeight(Plug(c, t)))
    ensures Balanced(t, BlackHeight(t)) && CtxBalanced(c, BlackHeight(t))
    decreases c
  {
    match c
    case Top =>
    case InLeft(k, a, r, up) =>
      BalanceSplit(up, Node(k, t, a, r));
      assert BlackHeight(Node(k, t, a, r)) == BlackHeight(t) + Weight(k);
    case InRight(k, l, a, up) =>
      BalanceSplit(up, Node(k, l, a, t));
      assert BlackHeight(Node(k, l, a, t)) == BlackHeight(l) + Weight(k);
      BalancedHeight(t, BlackHeight(l));
  }

  lemma {:induction false} RedSplit(c: Ctx, t: Tree)
    requires NoRedRed(Plug(c, t)) && !IsRed(Plug(c, t))
    ensures NoRedRed(t) && CtxNoRedRed(c) && (IsRed(t) ==> !c.Top? && !RedFrame(c))
    decreases c
  {
    match c
    case Top =>
    case InLeft(k, a, r, up) => RedSplit(up, Node(k, t, a, r));
    case InRight(k, l, a, up) => RedSplit(up, Node(k, l, a, t));
  }
}
