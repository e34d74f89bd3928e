/**
 The search trees of transactions and of lock entries: nodes found by key in a
 red-black tree.  A stored key smaller than the one sought sends the search to
 the left, so an in-order walk meets the keys in decreasing order.
 */
module KeyIndex {
  import opened RbShape
  import opened RbMemory
  import opened RbTree

  type Key = nat

  /** The nodes in `s` carry strictly decreasing keys. */
  ghost predicate Decreasing(s: seq<Addr>, key: seq<Key>) {
    && (forall i :: 0 <= i < |s| ==> s[i] < |key|)
    && (forall i, j :: 0 <= i < j < |s| ==> key[s[i]] > key[s[j]])
  }

  ghost predicate AllAbove(s: seq<Addr>, key: seq<Key>, k: Key) {
    forall i :: 0 <= i < |s| ==> s[i] < |key| && key[s[i]] > k
  }

  ghost predicate AllBelow(s: seq<Addr>, key: seq<Key>, k: Key) {
    forall i :: 0 <= i < |s| ==> s[i] < |key| && key[s[i]] < k
  }

  /** `b` maps exactly the keys of the nodes in `t` to those nodes. */
  ghost predicate Binds(b: map<Key, Addr>, t: Tree, key: seq<Key>) {
    && (forall a :: a in Addrs(t) ==> a < |key| && key[a] in b && b[key[a]] == a)
    && (forall k :: k in b ==> b[k] in Addrs(t) && b[k] < |key| && key[b[k]] == k)
  }

  /** A key, if present, is found in the subtree where the search stands. */
  lemma {:induction false} OnlyHere(c: Ctx, t: Tree, key: seq<Key>, b: map<Key, Addr>, k: Key)
    requires Binds(b, Plug(c, t), key) && AllAbove(Before(c), key, k) && AllBelow(After(c), key, k)
    ensures k in b ==> b[k] in Addrs(t)
  {
    if k in b {
      InOrderAddrs(Plug(c, t));
      PlugInOrder(c, t);
      InOrderAddrs(t);
      assert b[k] in InOrder(Plug(c, t));
    }
  }

  lemma {:induction false} DecreasingParts(b: seq<Addr>, l: seq<Addr>, a: Addr, r: seq<Addr>, e: seq<Addr>,
                                           key: seq<Key>)
    requires Decreasing(b + (l + [a] + r) + e, key)
    ensures a < |key| && AllAbove(l, key, key[a]) && AllBelow(r, key, key[a])
  {
    var s := b + (l + [a] + r) + e;
    var m := |b| + |l|;
    assert s[m] == a;
    forall i | 0 <= i < |l| ensures l[i] < |key| && key[l[i]] > key[a] {
      assert l[i] == s[|b| + i];
    }
    forall i | 0 <= i < |r| ensures r[i] < |key| && key[r[i]] < key[a] {
      assert r[i] == s[m + 1 + i];
    }
  }

  /** Going left or right keeps all passed nodes on their side of the key. */
  lemma {:induction false} Descend(c: Ctx, t: Tree, key: seq<Key>, k: Key)
    requires t.Node? && Decreasing(InOrder(Plug(c, t)), key)
    requires AllAbove(Before(c), key, k) && AllBelow(After(c), key, k)
    ensures t.addr < |key|
    ensures key[t.addr] < k ==> AllBelow(After(InLeft(t.color, t.addr, t.right, c)), key, k)
    ensures key[t.addr] > k ==> AllAbove(Before(InRight(t.color, t.left, t.addr, c)), key, k)
  {
    PlugInOrder(c, t);
    DecreasingParts(Before(c), InOrder(t.left), t.addr, InOrder(t.right), After(c), key);
  }

  /** Where a search for `k` stands: every node passed is on its side of the key. */
  ghost predicate Searching(m: Mem, root: Addr, shape: Tree, key: seq<Key>, k: Key, c: Ctx, t: Tree) {
    && Holds(m, root, c, t) && Plug(c, t) == shape && AllAbove(Before(c), key, k) && AllBelow(After(c), key, k)
    && (Root(t) == 0 <==> t.Leaf?)
  }

  lemma {:induction false} SearchTop(m: Mem, root: Addr, shape: Tree, key: seq<Key>, k: Key)
    requires Holds(m, root, Top, shape)
    ensures Searching(m, root, shape, key, k, Top, shape) && root == Root(shape)
  {
    FocusFields(m, root, Top, shape);
  }

  /** One round of a search: the key of the current node, and where each child leads. */
  lemma {:induction false} SearchOn(m: Mem, root: Addr, shape: Tree, key: seq<Key>, k: Key, b: map<Key, Addr>, c: Ctx,
                                    t: Tree)
    requires Searching(m, root, shape, key, k, c, t) && t.Node?
    requires Decreasing(InOrder(shape), key) && Binds(b, shape, key)
    ensures 0 < t.addr < |m| && t.addr < |key|
    ensures m[t.addr].left == Root(t.left) && m[t.addr].right == Root(t.right)
    ensures key[t.addr] < k ==> Searching(m, root, shape, key, k, InLeft(t.color, t.addr, t.right, c), t.left)
    ensures key[t.addr] > k ==> Searching(m, root, shape, key, k, InRight(t.color, t.left, t.addr, c), t.right)
    ensures key[t.addr] == k ==> k in b && b[k] == t.addr
  {
    Descend(c, t, key, k);
    FocusFields(m, root, c, t);
    ChildNotNull(m, root, c, t);
    PlugAddrs(c, t);
    Refocus(m, root, c, t, InLeft(t.color, t.addr, t.right, c), t.left);
    Refocus(m, root, c, t, InRight(t.color, t.left, t.addr, c), t.right);
  }

  /** A search that ends at an empty position has found that the key is not bound. */
  lemma {:induction false} SearchEnd(m: Mem, root: Addr, shape: Tree, key: seq<Key>, k: Key, b: map<Key, Addr>, c: Ctx)
    requires Searching(m, root, shape, key, k, c, Leaf) && Binds(b, shape, key)
    ensures k !in b && Plug(c, Leaf) == shape && AllAbove(Before(c), key, k) && AllBelow(After(c), key, k)
  {
    OnlyHere(c, Leaf, key, b, k);
  }

  lemma {:induction false} HeldOnce(m: Mem, root: Addr, t: Tree)
    requires Holds(m, root, Top, t)
    ensures Uniq(t)
  {
    PlugAddrs(Top, t);
  }

  lemma {:induction false} SearchRoot(m: Mem, root: Addr, shape: Tree, key: seq<Key>, k: Key, c: Ctx, t: Tree)
    requires Searching(m, root, shape, key, k, c, t)
    ensures Root(t) == 0 <==> t.Leaf?
  {
  }

  lemma {:induction false} DecreasingInsert(p: seq<Addr>, a: Addr, q: seq<Addr>, key: seq<Key>)
    requires Decreasing(p + q, key) && a < |key|
    requires AllAbove(p, key, key[a]) && AllBelow(q, key, key[a])
    ensures Decreasing(p + [a] + q, key)
  {
    var s := p + [a] + q;
    forall i, j | 0 <= i < j < |s| ensures key[s[i]] > key[s[j]] {
      if i < |p| && |p| < j {
        assert (p + q)[i] == p[i] && (p + q)[j - 1] == s[j];
      } else if j < |p| {
        assert (p + q)[i] == p[i] && (p + q)[j] == p[j];
      } else if |p| < i {
        assert (p + q)[i - 1] == s[i] && (p + q)[j - 1] == s[j];
      }
    }
  }

  lemma {:induction false} Bound(t: Tree, t': Tree, c: Ctx, node: Addr, key: seq<Key>, b: map<Key, Addr>)
    requires Binds(b, t, key) && Plug(c, Leaf) == t && Decreasing(InOrder(t), key)
    requires node < |key| && key[node] !in b
    requires AllAbove(Before(c), key, key[node]) && AllBelow(After(c), key, key[node])
    requires Addrs(t') == Addrs(t) + {node} && InOrder(t') == Before(c) + [node] + After(c)
    ensures Decreasing(InOrder(t'), key) && Binds(b[key[node] := node], t', key)
  {
    PlugInOrder(c, Leaf);
    assert Before(c) + [] + After(c) == Before(c) + After(c);
    DecreasingInsert(Before(c), node, After(c), key);
  }

  lemma {:induction false} DecreasingTakenOut(s: seq<Addr>, a: Addr, s': seq<Addr>, key: seq<Key>)
    requires Decreasing(s, key) && TakenOut(s, a, s')
    ensures Decreasing(s', key)
  {
  }

  // --------------------------------------------------------------------------
  // How long a search takes
  // --------------------------------------------------------------------------

  function Pow2(n: nat): nat {
    if n == 0 then 1 else 2 * Pow2(n - 1)
  }

  function Height(t: Tree): nat {
    if t.Leaf? then 0 else 1 + if Height(t.left) < Height(t.right) then Height(t.right) else Height(t.left)
  }

  lemma {:induction false} Pow2Add(m: nat, n: nat)
    ensures Pow2(m + n) == Pow2(m) * Pow2(n)
  {
    if m > 0 {
      Pow2Add(m - 1, n);
      assert Pow2(m + n) == 2 * Pow2(m - 1 + n);
    }
  }

  lemma {:induction false} Pow2Monotone(m: nat, n: nat)
    requires m <= n
    ensures Pow2(m) <= Pow2(n)
  {
    if m < n {
      Pow2Monotone(m, n - 1);
    }
  }

  lemma {:induction false} BlackHeightBounds(t: Tree, h: nat)
    requires NoRedRed(t) && Balanced(t, h)
    ensures Pow2(h) <= |InOrder(t)| + 1
    ensures Height(t) <= 2 * h + if IsRed(t) then 1 else 0
  {
    if t.Node? {
      BlackHeightBounds(t.left, h - Weight(t.color));
      BlackHeightBounds(t.right, h - Weight(t.color));
    }
  }

  /** The height of a red-black tree of `n` nodes is at most `2 * log2(n + 1)`. */
  lemma {:induction false} HeightBound(t: Tree)
    requires IsRb(t)
    ensures Pow2(Height(t)) <= (|InOrder(t)| + 1) * (|InOrder(t)| + 1)
  {
    var h, n := BlackHeight(t), |InOrder(t)| + 1;
    BlackHeightBounds(t, h);
    Pow2Monotone(Height(t), h + h);
    Pow2Add(h, h);
    Squares(Pow2(h), n);
  }

  lemma {:induction false} Squares(a: nat, b: nat)
    requires a <= b
    ensures a * a <= b * b
  {
  }

  lemma {:induction false} SameSize(b: map<Key, Addr>, s: set<Addr>, key: seq<Key>)
    requires forall k :: k in b ==> b[k] in s && b[k] < |key| && key[b[k]] == k
    requires forall a :: a in s ==> a < |key| && key[a] in b && b[key[a]] == a
    ensures |b| == |s|
    decreases |s|
  {
    if s == {} {
      assert b.Keys == {};
    } else {
      var a :| a in s;
      var b' := b - {key[a]};
      assert b'.Keys == b.Keys - {key[a]};
      SameSize(b', s - {a}, key);
    }
  }

  lemma {:induction false} WalkSize(t: Tree)
    requires Uniq(t)
    ensures |InOrder(t)| == |Addrs(t)|
  {
    if t.Node? {
      WalkSize(t.left);
      WalkSize(t.right);
    }
  }

  lemma {:induction false} StepBound(t: Tree, key: seq<Key>, b: map<Key, Addr>, steps: nat)
    requires IsRb(t) && Uniq(t) && Binds(b, t, key) && steps <= Height(t)
    ensures Pow2(steps) <= (|b| + 1) * (|b| + 1)
  {
    hide IsRb, Height, Pow2;
    HeightBound(t);
    Pow2Monotone(steps, Height(t));
    WalkSize(t);
    SameSize(b, Addrs(t), key);
    assert |InOrder(t)| == |b|;
  }

  // --------------------------------------------------------------------------
  // The index
  // --------------------------------------------------------------------------

  /** Nodes outside the tree have a zero parent word. */
  ghost predicate Zeroed(m: Mem, t: Tree) {
    forall a :: 0 < a < |m| && a !in Addrs(t) ==> m[a].parentColor == 0
  }

  class KeyIndex {
    const tree: RbTree
    /** The key stored in each node. */
    var key: seq<Key>
    /** The finite map that the tree implements. */
    ghost var bindings: map<Key, Addr>

    ghost predicate Valid()
      reads this, tree
    {
      && tree.Valid() && |key| == |tree.mem|
      && Decreasing(InOrder(tree.shape), key) && Binds(bindings, tree.shape, key)
      && Zeroed(tree.mem, tree.shape)
    }

    constructor (n: nat)
      ensures Valid() && bindings == map[] && |key| == n + 1 && fresh(tree)
    {
      tree := new RbTree(n);
      key := seq(n + 1, _ => 0);
      bindings := map[];
    }

    /** The guard of removal is exact: the word is zero for standalone nodes and for no others. */
    lemma {:induction false} StandaloneWord(node: Addr)
      requires Valid() && 0 < node < |key|
      ensures tree.mem[node].parentColor == 0 <==> node !in bindings.Values
      ensures node in bindings.Values <==> node in Addrs(tree.shape)
    {
      if node in Addrs(tree.shape) {
        LinkedWord(tree.mem, tree.root, tree.shape, node);
        assert bindings[key[node]] == node;
      }
    }

    lemma {:induction false} BoundKey(k: Key)
      requires Valid() && k in bindings
      ensures 0 < bindings[k] < |key| && key[bindings[k]] == k
    {
      NoNull(tree.mem, tree.root, Top, tree.shape);
    }

    /** A node outside the tree may be given another key. */
    method SetKey(node: Addr, k: Key)
      requires Valid() && 0 < node < |key| && node !in bindings.Values
      modifies `key
      ensures Valid() && key == old(key)[node := k]
    {
      StandaloneWord(node);
      InOrderAddrs(tree.shape);
      key := key[node := k];
    }

    method Search(k: Key) returns (node: Addr, steps: nat)
      requires Valid()
      ensures node == if k in bindings then bindings[k] else 0
      ensures Pow2(steps) <= (|bindings| + 1) * (|bindings| + 1)
    {
      hide Holds, Searching, Decreasing, Binds, AllAbove, AllBelow, IsRb, Zeroed, Pow2;
      node, steps := tree.root, 0;
      ghost var c, t := Top, tree.shape;
      SearchTop(tree.mem, tree.root, t, key, k);
      while node != 0
        invariant Searching(tree.mem, tree.root, tree.shape, key, k, c, t) && node == Root(t)
        invariant steps + Height(t) <= Height(tree.shape)
        decreases t
      {
        SearchRoot(tree.mem, tree.root, tree.shape, key, k, c, t);
        SearchOn(tree.mem, tree.root, tree.shape, key, k, bindings, c, t);
        steps := steps + 1;
        if key[node] < k {
          node := tree.mem[node].left;
          c, t := InLeft(t.color, t.addr, t.right, c), t.left;
        } else if key[node] > k {
          node := tree.mem[node].right;
          c, t := InRight(t.color, t.left, t.addr, c), t.right;
        } else {
          break;
        }
      }
      SearchRoot(tree.mem, tree.root, tree.shape, key, k, c, t);
      if node == 0 {
        SearchEnd(tree.mem, tree.root, tree.shape, key, k, bindings, c);
      }
      HeldOnce(tree.mem, tree.root, tree.shape);
      StepBound(tree.shape, key, bindings, steps);
    }

    /** The empty position where a new key belongs, or the node that already has it. */
    method FindPlace(k: Key) returns (taken: Addr, parent: Addr, onLeft: bool, ghost c: Ctx)
      requires Valid()
      ensures taken != 0 ==> k in bindings && bindings[k] == taken
      ensures taken == 0 ==> k !in bindings && Plug(c, Leaf) == tree.shape && parent == ParentOf(c)
      ensures taken == 0 ==> (onLeft <==> c.InLeft?)
      ensures taken == 0 ==> AllAbove(Before(c), key, k) && AllBelow(After(c), key, k)
    {
      hide Holds, Searching, Decreasing, Binds, AllAbove, AllBelow, IsRb, Zeroed, Plug;
      parent, onLeft, c, taken := 0, false, Top, 0;
      var node := tree.root;
      ghost var t := tree.shape;
      SearchTop(tree.mem, tree.root, t, key, k);
      while node != 0
        invariant Searching(tree.mem, tree.root, tree.shape, key, k, c, t) && node == Root(t)
        invariant parent == ParentOf(c) && (onLeft <==> c.InLeft?)
        decreases t
      {
        SearchRoot(tree.mem, tree.root, tree.shape, key, k, c, t);
        SearchOn(tree.mem, tree.root, tree.shape, key, k, bindings, c, t);
        parent := node;
        if key[parent] < k {
          node, onLeft := tree.mem[parent].left, true;
          c, t := InLeft(t.color, t.addr, t.right, c), t.left;
        } else if key[parent] > k {
          node, onLeft := tree.mem[parent].right, false;
          c, t := InRight(t.color, t.left, t.addr, c), t.right;
        } else {
          return node, parent, onLeft, c;
        }
      }
      SearchRoot(tree.mem, tree.root, tree.shape, key, k, c, t);
      SearchEnd(tree.mem, tree.root, tree.shape, key, k, bindings, c);
    }

    /** Fails, changing nothing, when the key of `node` is already bound. */
    method Insert(node: Addr) returns (ok: bool)
      requires Valid() && 0 < node < |key| && node !in bindings.Values
      modifies tree, `bindings
      ensures Valid() && ok == (key[node] !in old(bindings))
      ensures bindings == if ok then old(bindings)[key[node] := node] else old(bindings)
    {
      StandaloneWord(node);
      var taken, parent, onLeft;
      ghost var c;
      taken, parent, onLeft, c := FindPlace(key[node]);
      if taken != 0 {
        return false;
      }
      hide Holds, IsRb, Decreasing, Binds, AllAbove, AllBelow;
      tree.LinkAndColor(node, parent, onLeft, c);
      Bound(old(tree.shape), tree.shape, c, node, key, bindings);
      bindings := bindings[key[node] := node];
      ok := true;
    }

    /** Does nothing to a standalone node; otherwise unbinds its key and leaves the node standalone. */
    method Remove(node: Addr)
      requires Valid() && 0 < node < |key|
      modifies tree, `bindings
      ensures Valid() && node !in bindings.Values
      ensures bindings == if node in old(bindings).Values then old(bindings) - {key[node]} else old(bindings)
    {
      StandaloneWord(node);
      if tree.mem[node].parentColor == 0 {
        return;
      }
      tree.Erase(node);
      DecreasingTakenOut(old(InOrder(tree.shape)), node, InOrder(tree.shape), key);
      tree.ClearNode(node);
      bindings := bindings - {key[node]};
    }
  }
}
