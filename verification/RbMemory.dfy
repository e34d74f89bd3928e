/**
 Nodes in memory: the packed parent/colour word, and what it means for the
 memory to hold a given tree.
 */
module RbMemory {
  import opened RbShape

  /** `struct rb_node`: one word for parent and colour, then the two child pointers. */
  datatype RbNode = RbNode(parentColor: nat, right: Addr, left: Addr)

  /**
   The node store.  Node `a` is `m[a]`; slot 0 stands for the null pointer and holds nothing.
   Nodes are aligned, so node `a` starts at byte `4 * a` and the two low bits of its address
   are free.
   */
  type Mem = seq<RbNode>

  function Bit(k: Color): nat {
    if k == Red then 0 else 1
  }

  /** The word for a node with parent `p` and colour `k`. */
  function Pack(p: Addr, k: Color): nat {
    4 * p + Bit(k)
  }

  /** `rb_parent`: the word with its two low bits cleared, as a node. */
  function ParentBits(w: nat): Addr {
    w / 4
  }

  /** `rb_color`: the lowest bit, red being 0. */
  function ColorBit(w: nat): Color {
    if w % 2 == 0 then Red else Black
  }

  /** `rb_set_parent`: the two low bits are kept. */
  function WithParent(w: nat, p: Addr): nat {
    w % 4 + 4 * p
  }

  /** `rb_set_red`, `rb_set_black` and `rb_set_color`: only the lowest bit changes. */
  function WithColor(w: nat, k: Color): nat {
    w - w % 2 + Bit(k)
  }

  lemma {:induction false} PackedWord(p: Addr, k: Color, q: Addr, k': Color)
    ensures ParentBits(Pack(p, k)) == p && ColorBit(Pack(p, k)) == k
    ensures WithParent(Pack(p, k), q) == Pack(q, k)
    ensures WithColor(Pack(p, k), k') == Pack(p, k')
  {
    LowBits(p, Bit(k));
  }

  lemma {:induction false} LowBits(p: nat, b: nat)
    requires b < 2
    ensures (4 * p + b) / 4 == p && (4 * p + b) % 4 == b && (4 * p + b) % 2 == b
  {
    var w := 4 * p + b;
    Quotient(w, p, b, 4);
    Quotient(w, 2 * p, b, 2);
  }

  lemma {:induction false} Quotient(w: nat, q: nat, r: nat, n: nat)
    requires (n == 2 || n == 4) && w == n * q + r && r < n
    ensures w / n == q && w % n == r
  {
  }

  // Stores into one field of one node.

  function PutParent(m: Mem, a: Addr, p: Addr): Mem
    requires a < |m|
  {
    m[a := m[a].(parentColor := WithParent(m[a].parentColor, p))]
  }

  function PutColor(m: Mem, a: Addr, k: Color): Mem
    requires a < |m|
  {
    m[a := m[a].(parentColor := WithColor(m[a].parentColor, k))]
  }

  function PutLeft(m: Mem, a: Addr, child: Addr): Mem
    requires a < |m|
  {
    m[a := m[a].(left := child)]
  }

  function PutRight(m: Mem, a: Addr, child: Addr): Mem
    requires a < |m|
  {
    m[a := m[a].(right := child)]
  }

  /** `m` holds the nodes of `t`, whose root has parent `p`. */
  ghost predicate Rep(m: Mem, t: Tree, p: Addr) {
    match t
    case Leaf => true
    case Node(k, l, a, r) =>
      && 0 < a < |m|
      && m[a] == RbNode(Pack(p, k), Root(r), Root(l))
      && Rep(m, l, a) && Rep(m, r, a)
  }

  /** `m` holds the nodes of `c` around a subtree whose root is `child`. */
  ghost predicate RepCtx(m: Mem, root: Addr, c: Ctx, child: Addr) {
    match c
    case Top => root == child
    case InLeft(k, a, r, up) =>
      && 0 < a < |m|
      && m[a] == RbNode(Pack(ParentOf(up), k), Root(r), child)
      && Rep(m, r, a) && RepCtx(m, root, up, a)
    case InRight(k, l, a, up) =>
      && 0 < a < |m|
      && m[a] == RbNode(Pack(ParentOf(up), k), child, Root(l))
      && Rep(m, l, a) && RepCtx(m, root, up, a)
  }

  /** The memory and the root pointer hold the tree `Plug(c, t)`, seen from `t`. */
  ghost predicate Holds(m: Mem, root: Addr, c: Ctx, t: Tree) {
    0 < |m| && Rep(m, t, ParentOf(c)) && RepCtx(m, root, c, Root(t)) && Apart(c, t)
  }

  /** `m` and `m'` agree on every node outside `s`. */
  ghost predicate SameOutside(m: Mem, m': Mem, s: set<Addr>) {
    |m| == |m'| && forall a :: 0 < a < |m| && a !in s ==> m'[a] == m[a]
  }

  lemma {:induction false} RepAddrs(m: Mem, t: Tree, p: Addr)
    requires Rep(m, t, p)
    ensures forall a :: a in Addrs(t) ==> 0 < a < |m|
  {
    if t.Node? {
      RepAddrs(m, t.left, t.addr);
      RepAddrs(m, t.right, t.addr);
    }
  }

  lemma {:induction false} RepCtxAddrs(m: Mem, root: Addr, c: Ctx, child: Addr)
    requires RepCtx(m, root, c, child)
    ensures forall a :: a in CtxAddrs(c) ==> 0 < a < |m|
    decreases c
  {
    match c
    case Top =>
    case InLeft(k, a, r, up) =>
      RepAddrs(m, r, a);
      RepCtxAddrs(m, root, up, a);
    case InRight(k, l, a, up) =>
      RepAddrs(m, l, a);
      RepCtxAddrs(m, root, up, a);
  }

  lemma {:induction false} NoNull(m: Mem, root: Addr, c: Ctx, t: Tree)
    requires Holds(m, root, c, t)
    ensures 0 !in Addrs(t) && 0 !in CtxAddrs(c)
  {
    RepAddrs(m, t, ParentOf(c));
    RepCtxAddrs(m, root, c, Root(t));
  }

  lemma {:induction false} RepFrame(m: Mem, m': Mem, t: Tree, p: Addr, s: set<Addr>)
    requires Rep(m, t, p) && SameOutside(m, m', s) && Addrs(t) !! s
    ensures Rep(m', t, p)
  {
    if t.Node? {
      RepFrame(m, m', t.left, t.addr, s);
      RepFrame(m, m', t.right, t.addr, s);
    }
  }

  lemma {:induction false} RepCtxFrame(m: Mem, m': Mem, root: Addr, c: Ctx, child: Addr, s: set<Addr>)
    requires RepCtx(m, root, c, child) && SameOutside(m, m', s) && CtxAddrs(c) !! s
    ensures RepCtx(m', root, c, child)
    decreases c
  {
    match c
    case Top =>
    case InLeft(k, a, r, up) =>
      RepFrame(m, m', r, a, s);
      RepCtxFrame(m, m', root, up, a, s);
    case InRight(k, l, a, up) =>
      RepFrame(m, m', l, a, s);
      RepCtxFrame(m, m', root, up, a, s);
  }

  /** Moving the focus does not change what is held. */
  lemma {:induction false} HoldsPlug(m: Mem, root: Addr, c: Ctx, t: Tree)
    ensures Holds(m, root, c, t) <==> Holds(m, root, Top, Plug(c, t))
    decreases c
  {
    match c
    case Top =>
    case InLeft(k, a, r, up) => HoldsPlug(m, root, up, Node(k, t, a, r));
    case InRight(k, l, a, up) => HoldsPlug(m, root, up, Node(k, l, a, t));
  }

  /** Two ways of seeing one tree hold together. */
  lemma {:induction false} Refocus(m: Mem, root: Addr, c: Ctx, t: Tree, c': Ctx, t': Tree)
    requires Holds(m, root, c, t) && Plug(c, t) == Plug(c', t')
    ensures Holds(m, root, c', t')
  {
    HoldsPlug(m, root, c, t);
    HoldsPlug(m, root, c', t');
  }

  // --------------------------------------------------------------------------
  // Local changes
  // --------------------------------------------------------------------------

  /** The node at `a`, if there is one, with its parent changed to `p`. */
  ghost predicate Reparented(m: Mem, m': Mem, a: Addr, p: Addr) {
    a != 0 ==> a < |m| == |m'| && m'[a] == m[a].(parentColor := WithParent(m[a].parentColor, p))
  }

  /** The pointer to the hole of `c`, in the parent node or in the root, now leads to `child`. */
  ghost predicate Relinked(m: Mem, m': Mem, root: Addr, root': Addr, c: Ctx, child: Addr) {
    match c
    case Top => root' == child
    case InLeft(_, a, _, _) => root' == root && a < |m| == |m'| && m'[a] == m[a].(left := child)
    case InRight(_, _, a, _) => root' == root && a < |m| == |m'| && m'[a] == m[a].(right := child)
  }

  lemma {:induction false} RepReparent(m: Mem, m': Mem, t: Tree, p: Addr, p': Addr, s: set<Addr>)
    requires Rep(m, t, p) && Uniq(t)
    requires Reparented(m, m', Root(t), p')
    requires SameOutside(m, m', s) && Addrs(t) - {Root(t)} !! s
    ensures Rep(m', t, p')
  {
    if t.Node? {
      PackedWord(p, t.color, p', t.color);
      RepFrame(m, m', t.left, t.addr, s);
      RepFrame(m, m', t.right, t.addr, s);
    }
  }

  lemma {:induction false} RepCtxRelink(m: Mem, m': Mem, root: Addr, root': Addr, c: Ctx, child: Addr, child': Addr,
                                        s: set<Addr>)
    requires RepCtx(m, root, c, child) && UniqCtx(c)
    requires Relinked(m, m', root, root', c, child')
    requires SameOutside(m, m', s) && CtxAddrs(c) - {ParentOf(c)} !! s
    ensures RepCtx(m', root', c, child')
  {
    match c
    case Top =>
    case InLeft(k, a, r, up) =>
      RepFrame(m, m', r, a, s);
      RepCtxFrame(m, m', root, up, a, s);
    case InRight(k, l, a, up) =>
      RepFrame(m, m', l, a, s);
      RepCtxFrame(m, m', root, up, a, s);
  }

  lemma {:induction false} SameOutsideWiden(m: Mem, m': Mem, s: set<Addr>, s': set<Addr>)
    requires SameOutside(m, m', s) && s - {0} <= s'
    ensures SameOutside(m, m', s')
  {
  }

  /** The parent of the focus can tell on which side it hangs. */
  lemma {:induction false} HoleSide(m: Mem, root: Addr, c: Ctx, t: Tree)
    requires Holds(m, root, c, t) && t.Node?
    ensures !c.Top? ==> 0 < c.addr < |m| && c.addr != t.addr && (c.InLeft? <==> m[c.addr].left == t.addr)
  {
  }

  lemma {:induction false} HoleSideRight(m: Mem, root: Addr, c: Ctx, t: Tree)
    requires Holds(m, root, c, t) && t.Node?
    ensures !c.Top? ==> 0 < c.addr < |m| && (c.InRight? <==> m[c.addr].right == t.addr)
  {
  }

  /** What `Rep` says of the root. */
  lemma {:induction false} RepOpen(m: Mem, t: Tree, p: Addr)
    requires t.Node? && Rep(m, t, p)
    ensures 0 < t.addr < |m|
    ensures m[t.addr] == RbNode(Pack(p, t.color), Root(t.right), Root(t.left))
    ensures Rep(m, t.left, t.addr) && Rep(m, t.right, t.addr)
  {
  }

  /** The nodes around an edge from `a`, below `p`, down to `b`, whose inner child is `g`. */
  ghost predicate Edge(m: Mem, p: Addr, a: Addr, b: Addr, g: Addr) {
    && p < |m| && 0 < a < |m| && 0 < b < |m| && g < |m|
    && a != b && a != p && b != p && a != g && b != g && (g == p ==> g == 0)
  }

  lemma {:induction false} LeftEdge(m: Mem, root: Addr, c: Ctx, t: Tree)
    requires t.Node? && t.left.Node? && Holds(m, root, c, t)
    ensures Edge(m, ParentOf(c), t.addr, t.left.addr, Root(t.left.right))
    ensures m[t.addr] == RbNode(Pack(ParentOf(c), t.color), Root(t.right), t.left.addr)
    ensures m[t.left.addr] == RbNode(Pack(t.addr, t.left.color), Root(t.left.right), Root(t.left.left))
  {
    RepOpen(m, t.left, t.addr);
    UniqNode(t);
    UniqNode(t.left);
    assert c.Top? || c.addr in CtxAddrs(c);
  }

  lemma {:induction false} RightEdge(m: Mem, root: Addr, c: Ctx, t: Tree)
    requires t.Node? && t.right.Node? && Holds(m, root, c, t)
    ensures Edge(m, ParentOf(c), t.addr, t.right.addr, Root(t.right.left))
    ensures m[t.addr] == RbNode(Pack(ParentOf(c), t.color), t.right.addr, Root(t.left))
    ensures m[t.right.addr] == RbNode(Pack(t.addr, t.right.color), Root(t.right.right), Root(t.right.left))
  {
    RepOpen(m, t.right, t.addr);
    UniqNode(t);
    UniqNode(t.right);
    assert c.Top? || c.addr in CtxAddrs(c);
  }

  /** The rotation of `Node(kx, A, x, Node(ky, B, y, C))` to the left. */
  lemma {:induction false} RotatedLeft(m: Mem, m': Mem, root: Addr, root': Addr, c: Ctx, t: Tree)
    requires t.Node? && t.right.Node? && Holds(m, root, c, t) && |m'| == |m|
    requires m'[t.addr] == RbNode(Pack(t.right.addr, t.color), Root(t.right.left), Root(t.left))
    requires t.right.addr < |m|
    requires m'[t.right.addr] == RbNode(Pack(ParentOf(c), t.right.color), Root(t.right.right), t.addr)
    requires Reparented(m, m', Root(t.right.left), t.addr)
    requires Relinked(m, m', root, root', c, t.right.addr)
    requires SameOutside(m, m', {t.addr, t.right.addr, Root(t.right.left), ParentOf(c)})
    ensures Holds(m', root', c, RotL(t))
  {
    var low, x, y := t.right, t.addr, t.right.addr;
    var s := {x, y, Root(low.left), ParentOf(c)};
    RepOpen(m, low, x);
    NoNull(m, root, c, t);
    UniqNode(t);
    UniqNode(low);
    ApartRotL(c, t);
    RepFrame(m, m', t.left, x, s);
    RepFrame(m, m', low.right, y, s);
    RepReparent(m, m', low.left, y, x, s);
    RepCtxRelink(m, m', root, root', c, x, y, s);
    assert Rep(m', RotL(t).left, y);
  }

  /** The rotation of `Node(ky, Node(kx, A, x, B), y, C)` to the right. */
  lemma {:induction false} RotatedRight(m: Mem, m': Mem, root: Addr, root': Addr, c: Ctx, t: Tree)
    requires t.Node? && t.left.Node? && Holds(m, root, c, t) && |m'| == |m|
    requires m'[t.addr] == RbNode(Pack(t.left.addr, t.color), Root(t.right), Root(t.left.right))
    requires t.left.addr < |m|
    requires m'[t.left.addr] == RbNode(Pack(ParentOf(c), t.left.color), t.addr, Root(t.left.left))
    requires Reparented(m, m', Root(t.left.right), t.addr)
    requires Relinked(m, m', root, root', c, t.left.addr)
    requires SameOutside(m, m', {t.addr, t.left.addr, Root(t.left.right), ParentOf(c)})
    ensures Holds(m', root', c, RotR(t))
  {
    var low, y, x := t.left, t.addr, t.left.addr;
    var s := {y, x, Root(low.right), ParentOf(c)};
    RepOpen(m, low, y);
    NoNull(m, root, c, t);
    UniqNode(t);
    UniqNode(low);
    ApartRotR(c, t);
    RepFrame(m, m', t.right, y, s);
    RepFrame(m, m', low.left, x, s);
    RepReparent(m, m', low.right, x, y, s);
    RepCtxRelink(m, m', root, root', c, y, x, s);
    assert Rep(m', RotR(t).right, x);
  }

  /** The root of the focus with another colour. */
  lemma {:induction false} Recolored(m: Mem, m': Mem, root: Addr, c: Ctx, t: Tree, k: Color)
    requires t.Node? && Holds(m, root, c, t) && SameOutside(m, m', {t.addr})
    requires m'[t.addr] == m[t.addr].(parentColor := Pack(ParentOf(c), k))
    ensures Holds(m', root, c, t.(color := k))
  {
    RepFrame(m, m', t.left, t.addr, {t.addr});
    RepFrame(m, m', t.right, t.addr, {t.addr});
    RepCtxFrame(m, m', root, c, t.addr, {t.addr});
  }

  /** What a node of the focus and its parent tell about colours and links. */
  lemma {:induction false} FocusFields(m: Mem, root: Addr, c: Ctx, t: Tree)
    requires Holds(m, root, c, t)
    ensures t.Node? ==> 0 < t.addr < |m| && ParentBits(m[t.addr].parentColor) == ParentOf(c)
    ensures t.Node? ==> ColorBit(m[t.addr].parentColor) == t.color
    ensures t.Node? ==> m[t.addr].left == Root(t.left) && m[t.addr].right == Root(t.right)
    ensures !c.Top? ==> 0 < c.addr < |m| && ParentBits(m[c.addr].parentColor) == ParentOf(c.up)
    ensures !c.Top? ==> ColorBit(m[c.addr].parentColor) == c.color
    ensures c.InLeft? ==> m[c.addr].left == Root(t) && m[c.addr].right == Root(c.right)
    ensures c.InRight? ==> m[c.addr].left == Root(c.left) && m[c.addr].right == Root(t)
    ensures c.Top? ==> root == Root(t)
  {
    if t.Node? {
      PackedWord(ParentOf(c), t.color, 0, Red);
    }
    if !c.Top? {
      PackedWord(ParentOf(c.up), c.color, 0, Red);
    }
  }

  /** The same for the parent and the uncle of the focus. */
  lemma {:induction false} NearFields(m: Mem, root: Addr, c: Ctx, t: Tree)
    requires Holds(m, root, c, t) && t.Node?
    ensures 0 < t.addr < |m| && ParentBits(m[t.addr].parentColor) == ParentOf(c) < |m|
    ensures !c.Top? ==>
      && 0 < c.addr && ColorBit(m[c.addr].parentColor) == c.color
          && ParentBits(m[c.addr].parentColor) == ParentOf(c.up) < |m|
      && (c.InLeft? <==> m[c.addr].left == t.addr) && (c.InRight? <==> m[c.addr].right == t.addr)
    ensures !c.Top? && !c.up.Top? ==>
      && (c.up.InLeft? <==> m[c.up.addr].left == c.addr)
      && (c.up.InLeft? ==> m[c.up.addr].right == Root(c.up.right))
      && (c.up.InRight? ==> m[c.up.addr].left == Root(c.up.left))
      && (Sibling(c.up).Node? ==>
            0 < Sibling(c.up).addr < |m| && ColorBit(m[Sibling(c.up).addr].parentColor) == Sibling(c.up).color)
  {
    FocusFields(m, root, c, t);
    HoleSide(m, root, c, t);
    if !c.Top? {
      HoleSideRight(m, root, c, t);
      var p := Fill(c, t);
      Refocus(m, root, c, t, c.up, p);
      FocusFields(m, root, c.up, p);
      HoleSide(m, root, c.up, p);
      if !c.up.Top? {
        var b := Beside(c.up, p);
        Refocus(m, root, c.up, p, b, Sibling(c.up));
        FocusFields(m, root, b, Sibling(c.up));
      }
    }
  }

  /** The fields of the sibling and of the nephews of the focus. */
  lemma {:induction false} SiblingFields(m: Mem, root: Addr, c: Ctx, t: Tree)
    requires Holds(m, root, c, t) && !c.Top? && Sibling(c).Node?
    ensures 0 < c.addr < |m| && ColorBit(m[c.addr].parentColor) == c.color
    ensures m[c.addr].left == (if c.InLeft? then Root(t) else Sibling(c).addr)
    ensures m[c.addr].right == (if c.InLeft? then Sibling(c).addr else Root(t))
    ensures var s := Sibling(c); 0 < s.addr < |m| && s.addr != Root(t) && ColorBit(m[s.addr].parentColor) == s.color
    ensures var s := Sibling(c); m[s.addr].left == Root(s.left) && m[s.addr].right == Root(s.right)
    ensures var l := Sibling(c).left; l.Node? ==> 0 < l.addr < |m| && ColorBit(m[l.addr].parentColor) == l.color
    ensures var r := Sibling(c).right; r.Node? ==> 0 < r.addr < |m| && ColorBit(m[r.addr].parentColor) == r.color
  {
    var s, b := Sibling(c), Beside(c, t);
    FocusFields(m, root, c, t);
    Refocus(m, root, c, t, b, s);
    FocusFields(m, root, b, s);
    var bl, br := InLeft(s.color, s.addr, s.right, b), InRight(s.color, s.left, s.addr, b);
    Refocus(m, root, b, s, bl, s.left);
    Refocus(m, root, b, s, br, s.right);
    FocusFields(m, root, bl, s.left);
    FocusFields(m, root, br, s.right);
    assert Addrs(t) !! Addrs(s) by { NephewsApart(c, t); }
    assert s.addr in Addrs(s) && (t.Node? ==> t.addr in Addrs(t));
  }

  lemma {:induction false} NephewsApart(c: Ctx, t: Tree)
    requires Apart(c, t) && !c.Top?
    ensures Addrs(t) !! Addrs(Sibling(c))
  {
  }

  /** The focus is the whole tree exactly when the root pointer leads to it. */
  lemma {:induction false} RootFocus(m: Mem, root: Addr, c: Ctx, t: Tree)
    requires Holds(m, root, c, t)
    ensures c.Top? <==> root == Root(t)
    ensures root == Root(Plug(c, t))
    ensures !c.Top? ==> 0 < root
  {
    Refocus(m, root, c, t, Top, Plug(c, t));
    if !c.Top? {
      PlugNode(c, t);
      NoNull(m, root, c, t);
      assert t.Node? ==> t.addr in Addrs(t);
    }
  }

  /** What the fix-up loop of removal reads at the focus. */
  ghost predicate Near(m: Mem, root: Addr, c: Ctx, t: Tree) {
    && Root(t) < |m| && ParentOf(c) < |m| && (c.Top? <==> root == Root(t)) && (Root(t) == 0 <==> t.Leaf?)
    && (t.Node? ==> ColorBit(m[t.addr].parentColor) == t.color && ParentBits(m[t.addr].parentColor) == ParentOf(c))
  }

  lemma {:induction false} NodeFields(m: Mem, root: Addr, c: Ctx, t: Tree)
    requires Holds(m, root, c, t)
    ensures Near(m, root, c, t)
  {
    FocusFields(m, root, c, t);
    RootFocus(m, root, c, t);
  }

  // --------------------------------------------------------------------------
  // Taking a node out, and putting one node in the place of another
  // --------------------------------------------------------------------------

  /** The only child of `t`, for a node with at most one. */
  function OnlyChild(t: Tree): Tree
    requires t.Node? && (t.left.Leaf? || t.right.Leaf?)
  {
    if t.left.Leaf? then t.right else t.left
  }

  lemma {:induction false} Spliced(m: Mem, m': Mem, root: Addr, root': Addr, c: Ctx, t: Tree)
    requires Holds(m, root, c, t) && t.Node? && (t.left.Leaf? || t.right.Leaf?)
    requires Reparented(m, m', Root(OnlyChild(t)), ParentOf(c))
    requires Relinked(m, m', root, root', c, Root(OnlyChild(t)))
    requires SameOutside(m, m', {Root(OnlyChild(t)), ParentOf(c)})
    ensures Holds(m', root', c, OnlyChild(t))
    ensures m'[t.addr] == m[t.addr] && t.addr !in Addrs(OnlyChild(t)) + CtxAddrs(c)
  {
    var child, s := OnlyChild(t), {Root(OnlyChild(t)), ParentOf(c)};
    NoNull(m, root, c, t);
    UniqNode(t);
    RepReparent(m, m', child, t.addr, ParentOf(c), s);
    RepCtxRelink(m, m', root, root', c, t.addr, Root(child), s);
  }

  lemma {:induction false} Replaced(m: Mem, m': Mem, root: Addr, root': Addr, c: Ctx, t: Tree, b: Addr)
    requires Holds(m, root, c, t) && t.Node? && 0 < b < |m| && b !in Addrs(t) + CtxAddrs(c)
    requires |m'| == |m| && m'[b] == m[t.addr]
    requires Reparented(m, m', Root(t.left), b) && Reparented(m, m', Root(t.right), b)
    requires Relinked(m, m', root, root', c, b)
    requires SameOutside(m, m', {b, Root(t.left), Root(t.right), ParentOf(c)})
    ensures Holds(m', root', c, t.(addr := b))
  {
    var s := {b, Root(t.left), Root(t.right), ParentOf(c)};
    NoNull(m, root, c, t);
    UniqNode(t);
    RepReparent(m, m', t.left, t.addr, b, s);
    RepReparent(m, m', t.right, t.addr, b, s);
    RepCtxRelink(m, m', root, root', c, t.addr, b, s);
  }

  /** A fresh red leaf put into an empty position. */
  lemma {:induction false} Linked(m: Mem, m': Mem, root: Addr, root': Addr, c: Ctx, a: Addr)
    requires Holds(m, root, c, Leaf) && 0 < a < |m| == |m'| && a !in CtxAddrs(c)
    requires m'[a] == RbNode(Pack(ParentOf(c), Red), 0, 0)
    requires Relinked(m, m', root, root', c, a)
    requires SameOutside(m, m', {a, ParentOf(c)})
    ensures Holds(m', root', c, Node(Red, Leaf, a, Leaf))
  {
    RepCtxRelink(m, m', root, root', c, 0, a, {a, ParentOf(c)});
  }

  /** What taking out a node with at most one child reads. */
  lemma {:induction false} OnlyChildFields(m: Mem, root: Addr, c: Ctx, t: Tree)
    requires Holds(m, root, c, t) && t.Node? && (t.left.Leaf? || t.right.Leaf?)
    ensures 0 < t.addr < |m| && ParentBits(m[t.addr].parentColor) == ParentOf(c) < |m|
    ensures Root(OnlyChild(t)) < |m| && (c.Top? <==> ParentOf(c) == 0)
    ensures t.addr != Root(OnlyChild(t)) && t.addr != ParentOf(c)
    ensures Root(OnlyChild(t)) == ParentOf(c) ==> ParentOf(c) == 0
    ensures !c.Top? ==> (c.InLeft? <==> m[c.addr].left == t.addr)
    ensures {Root(OnlyChild(t)), ParentOf(c)} - {0} <= Addrs(Plug(c, t)) - {t.addr}
  {
    var child := OnlyChild(t);
    FocusFields(m, root, c, t);
    HoleSide(m, root, c, t);
    NoNull(m, root, c, t);
    UniqNode(t);
    PlugAddrs(c, t);
    RepAddrs(m, t, ParentOf(c));
    assert !c.Top? ==> c.addr in CtxAddrs(c);
    assert child.Node? ==> child.addr in Addrs(child) && child.addr in Addrs(t);
  }

  /** What replacing a node reads. */
  lemma {:induction false} PlaceFields(m: Mem, root: Addr, c: Ctx, t: Tree, b: Addr)
    requires Holds(m, root, c, t) && t.Node? && t.left.Node? && b !in Addrs(Plug(c, t))
    ensures 0 < t.addr < |m| && ParentBits(m[t.addr].parentColor) == ParentOf(c) < |m|
    ensures m[t.addr].left == t.left.addr && m[t.addr].right == Root(t.right)
    ensures 0 < t.left.addr < |m| && Root(t.right) < |m| && (c.Top? <==> ParentOf(c) == 0)
    ensures !c.Top? ==> (c.InLeft? <==> m[c.addr].left == t.addr)
    ensures var p, l, r := ParentOf(c), t.left.addr, Root(t.right);
      l != r && l != p && (r == p ==> p == 0) && t.addr !in {p, l, r}
    ensures {t.left.addr, Root(t.right), ParentOf(c)} - {0} <= Addrs(Plug(c, t)) - {t.addr}
    ensures b !in Addrs(t) + CtxAddrs(c)
  {
    hide Holds, Rep, RepCtx, Plug;
    FocusFields(m, root, c, t);
    HoleSide(m, root, c, t);
    PlaceApart(m, root, c, t);
    PlugAddrs(c, t);
  }

  /** The neighbours of a node are different nodes of the tree. */
  lemma {:induction false} PlaceApart(m: Mem, root: Addr, c: Ctx, t: Tree)
    requires Holds(m, root, c, t) && t.Node? && t.left.Node?
    ensures ParentOf(c) < |m| && 0 < t.left.addr < |m| && Root(t.right) < |m| && (c.Top? <==> ParentOf(c) == 0)
    ensures var p, l, r := ParentOf(c), t.left.addr, Root(t.right);
      && l != r && l != p && (r == p ==> p == 0) && t.addr !in {p, l, r}
      && {l, r, p} - {0} <= Addrs(Plug(c, t)) - {t.addr}
  {
    NoNull(m, root, c, t);
    UniqNode(t);
    PlugAddrs(c, t);
    RepAddrs(m, t, ParentOf(c));
    assert !c.Top? ==> c.addr in CtxAddrs(c);
  }

  /** A child pointer is null exactly when there is no child. */
  lemma {:induction false} ChildNotNull(m: Mem, root: Addr, c: Ctx, t: Tree)
    requires Holds(m, root, c, t) && t.Node?
    ensures Root(t.left) == 0 <==> t.left.Leaf?
    ensures Root(t.right) == 0 <==> t.right.Leaf?
  {
    NoNull(m, root, c, t);
    UniqNode(t);
  }
}
