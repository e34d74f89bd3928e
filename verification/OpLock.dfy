/**
 Per-key operation locks: a fixed pool of lock entries, bound to keys on demand,
 counted and recycled.  `Table` is the shared data; `State` adds what every thread
 is doing, so that a run is any interleaving of the atomic steps of locking and
 unlocking.  A thread here is one lock request: an operating system thread that
 keeps a lock beyond its command, or holds several, counts once for each.
 */
module OpLock {
  import opened Basics

  type Key = nat
  type Entry = nat
  type Tid = nat

  /** The search tree, the list of free entries and the fields of each entry; entry 0 is null. */
  datatype Table = Table(tree: map<Key, Entry>, free: seq<Entry>, refcnt: seq<int>, locked: seq<bool>)

  /** Every entry is in exactly one of the free list and the tree, once. */
  ghost predicate Partition(tb: Table) {
    && 0 < |tb.refcnt| == |tb.locked|
    && (forall e :: e in tb.free <==> 0 < e < |tb.refcnt| && e !in tb.tree.Values)
    && (forall i, j :: 0 <= i < j < |tb.free| ==> tb.free[i] != tb.free[j])
    && (forall k :: k in tb.tree ==> 0 < tb.tree[k] < |tb.refcnt|)
    && (forall k, k' :: k in tb.tree && k' in tb.tree && tb.tree[k] == tb.tree[k'] ==> k == k')
  }

  /** Finds the entry of a key, or binds the first free one; null when the pool is exhausted. */
  function Ensure(tb: Table, k: Key): (Table, Entry)
    requires Partition(tb)
  {
    if k in tb.tree then
      var e := tb.tree[k];
      (tb.(refcnt := tb.refcnt[e := tb.refcnt[e] + 1]), e)
    else if tb.free != [] then
      var e := tb.free[0];
      assert e in tb.free;
      (Table(tb.tree[k := e], tb.free[1..], tb.refcnt[e := 1], tb.locked[e := false]), e)
    else
      (tb, 0)
  }

  /** Drops one reference; null when it was the last one or there is no entry. */
  function Take(tb: Table, k: Key): (Table, Entry)
    requires Partition(tb)
  {
    if k !in tb.tree then (tb, 0)
    else
      var e := tb.tree[k];
      var n := tb.refcnt[e] - 1;
      if n == 0 then (Table(tb.tree - {k}, tb.free + [e], tb.refcnt[e := n], tb.locked), 0)
      else (tb.(refcnt := tb.refcnt[e := n]), e)
  }

  /** The first free entry occurs in the free list once. */
  lemma {:induction false} FirstFree(tb: Table, e: Entry)
    requires Partition(tb) && tb.free != []
    ensures e in tb.free[1..] <==> e in tb.free && e != tb.free[0]
  {
  }

  lemma {:induction false} EnsurePartition(tb: Table, k: Key)
    requires Partition(tb)
    ensures Partition(Ensure(tb, k).0) && |Ensure(tb, k).0.refcnt| == |tb.refcnt|
    ensures forall k' :: k' in tb.tree ==> k' in Ensure(tb, k).0.tree && Ensure(tb, k).0.tree[k'] == tb.tree[k']
  {
    var tb' := Ensure(tb, k).0;
    if k !in tb.tree && tb.free != [] {
      var e := tb.free[0];
      assert e in tb.free;
      forall x: Entry ensures x in tb'.free <==> 0 < x < |tb'.refcnt| && x !in tb'.tree.Values {
        FirstFree(tb, x);
        BoundValues(tb.tree, k, e, x);
      }
    }
  }

  lemma {:induction false} BoundValues(tree: map<Key, Entry>, k: Key, e: Entry, x: Entry)
    requires k !in tree
    ensures x in tree[k := e].Values <==> x in tree.Values || x == e
  {
    var tree' := tree[k := e];
    assert k in tree' && tree'[k] == e;
    if x in tree.Values {
      var k' :| k' in tree && tree[k'] == x;
      assert k' in tree' && tree'[k'] == x;
    }
  }

  /** The entries that locking a key may touch. */
  lemma {:induction false} PoolFacts(tb: Table, k: Key)
    requires Partition(tb)
    ensures |tb.refcnt| == |tb.locked|
    ensures tb.free != [] ==> 0 < tb.free[0] < |tb.refcnt| && tb.free[0] !in tb.tree.Values
    ensures k in tb.tree ==> 0 < tb.tree[k] < |tb.refcnt|
  {
    if tb.free != [] { assert tb.free[0] in tb.free; }
  }

  lemma {:induction false} TakePartition(tb: Table, k: Key)
    requires Partition(tb)
    ensures Partition(Take(tb, k).0)
  {
    var tb' := Take(tb, k).0;
    if k in tb.tree && tb.refcnt[tb.tree[k]] == 1 {
      var e := tb.tree[k];
      assert tb'.tree.Values == tb.tree.Values - {e} by {
        forall x | x in tb.tree.Values && x != e ensures x in tb'.tree.Values {
          var k' :| k' in tb.tree && tb.tree[k'] == x;
          assert k' in tb'.tree;
        }
      }
      assert e !in tb.free;
    }
  }

  // --------------------------------------------------------------------------
  // Threads
  // --------------------------------------------------------------------------

  /** Where a thread stands between the atomic steps of locking and unlocking key `k` through entry `e`. */
  datatype Pc =
    | Idle
    | Awake(e: Entry, k: Key)      // has its reference, about to test `locked`
    | Asleep(e: Entry, k: Key)     // in the condition wait
    | Holding(e: Entry, k: Key)
    | Releasing(e: Entry, k: Key)  // gave its reference back, has not yet cleared `locked`

  datatype State = State(tb: Table, pc: map<Tid, Pc>)

  datatype Step =
    | Enter(t: Tid, k: Key)        // `dnet_oplock_ensure`
    | Test(t: Tid)                 // one round of the wait loop
    | Wake(t: Tid)                 // a wakeup without a signal
    | Drop(t: Tid)                 // `dnet_oplock_take`
    | Clear(t: Tid, w: Tid)        // clear `locked` and signal one sleeper `w`, if there is any

  predicate Waits(p: Pc, e: Entry) {
    (p.Awake? || p.Asleep?) && p.e == e
  }

  predicate Owns(p: Pc, e: Entry) {
    (p.Holding? || p.Releasing?) && p.e == e
  }

  predicate IsCounted(p: Pc, e: Entry) {
    Waits(p, e) || (p.Holding? && p.e == e)
  }

  /** The threads whose references `e` counts: its waiters and its holder. */
  function Counted(pc: map<Tid, Pc>, e: Entry): set<Tid> {
    set t | t in pc && IsCounted(pc[t], e)
  }

  predicate Sleeps(p: Pc, e: Entry) {
    p.Asleep? && p.e == e
  }

  predicate HasSleeper(pc: map<Tid, Pc>, e: Entry) {
    exists t :: t in pc && Sleeps(pc[t], e)
  }

  predicate Enabled(s: State, a: Step)
    requires Partition(s.tb)
  {
    && a.t in s.pc
    && match a
       case Enter(t, k) => s.pc[t].Idle? && (k in s.tb.tree || s.tb.free != [])
       case Test(t) => s.pc[t].Awake? && s.pc[t].e < |s.tb.locked|
       case Wake(t) => s.pc[t].Asleep?
       case Drop(t) => s.pc[t].Holding?
       case Clear(t, w) =>
         && s.pc[t].Releasing? && s.pc[t].e < |s.tb.locked|
         && (HasSleeper(s.pc, s.pc[t].e) ==> w in s.pc && Sleeps(s.pc[w], s.pc[t].e))
  }

  /** The state after one atomic step. */
  function Next(s: State, a: Step): State
    requires Partition(s.tb) && Enabled(s, a)
  {
    var p := s.pc[a.t];
    match a
    case Enter(t, k) =>
      var (tb, e) := Ensure(s.tb, k);
      State(tb, s.pc[t := Awake(e, k)])
    case Test(t) =>
      if s.tb.locked[p.e] then s.(pc := s.pc[t := Asleep(p.e, p.k)])
      else State(s.tb.(locked := s.tb.locked[p.e := true]), s.pc[t := Holding(p.e, p.k)])
    case Wake(t) => s.(pc := s.pc[t := Awake(p.e, p.k)])
    case Drop(t) =>
      var (tb, e) := Take(s.tb, p.k);
      State(tb, s.pc[t := if e == 0 then Idle else Releasing(e, p.k)])
    case Clear(t, w) =>
      var tb := s.tb.(locked := s.tb.locked[p.e := false]);
      var pc := s.pc[t := Idle];
      if w in s.pc && Sleeps(s.pc[w], p.e)
      then State(tb, pc[w := Awake(s.pc[w].e, s.pc[w].k)])
      else State(tb, pc)
  }

  // --------------------------------------------------------------------------
  // What every step keeps
  // --------------------------------------------------------------------------

  /** The entry of every busy thread is still bound to that thread's key. */
  ghost predicate StillBound(tree: map<Key, Entry>, pc: map<Tid, Pc>) {
    forall t :: t in pc ==> IsBound(tree, pc[t])
  }

  predicate IsBound(tree: map<Key, Entry>, p: Pc) {
    p.Idle? || (p.k in tree && tree[p.k] == p.e)
  }

  /** A bound entry counts exactly its waiters and its holder, and has at least one. */
  ghost predicate CountsRefs(s: State)
    requires Partition(s.tb)
  {
    forall k :: k in s.tb.tree ==> s.tb.refcnt[s.tb.tree[k]] == |Counted(s.pc, s.tb.tree[k])| > 0
  }

  ghost predicate OneOwner(pc: map<Tid, Pc>) {
    forall t, t', e :: t in pc && t' in pc && Owns(pc[t], e) && Owns(pc[t'], e) ==> t == t'
  }

  ghost predicate HasOwner(pc: map<Tid, Pc>, e: Entry) {
    exists t :: t in pc && Owns(pc[t], e)
  }

  ghost predicate LockedIffOwned(s: State)
    requires Partition(s.tb)
  {
    forall k :: k in s.tb.tree ==> (s.tb.locked[s.tb.tree[k]] <==> HasOwner(s.pc, s.tb.tree[k]))
  }

  /** No wakeup is lost: a sleeper's lock is owned or another of its waiters is awake. */
  ghost predicate NoLostWakeup(s: State) {
    forall t :: t in s.pc && s.pc[t].Asleep? ==> HasOwner(s.pc, s.pc[t].e) || HasAwake(s.pc, s.pc[t].e)
  }

  ghost predicate HasAwake(pc: map<Tid, Pc>, e: Entry) {
    exists t :: t in pc && pc[t].Awake? && pc[t].e == e
  }

  ghost predicate Inv(s: State) {
    && Partition(s.tb)
    && StillBound(s.tb.tree, s.pc)
    && CountsRefs(s)
    && OneOwner(s.pc)
    && LockedIffOwned(s)
    && NoLostWakeup(s)
  }

  lemma {:induction false} CountedAfter(pc: map<Tid, Pc>, t: Tid, p: Pc, e: Entry)
    requires t in pc
    ensures |Counted(pc[t := p], e)| ==
            |Counted(pc, e)| - (if IsCounted(pc[t], e) then 1 else 0) + (if IsCounted(p, e) then 1 else 0)
  {
    var before, after := Counted(pc, e), Counted(pc[t := p], e);
    assert before - {t} == after - {t};
    assert t in before <==> IsCounted(pc[t], e);
    assert t in after <==> IsCounted(p, e);
    Without(before, t);
    Without(after, t);
  }

  lemma {:induction false} Without(a: set<Tid>, t: Tid)
    ensures |a| == |a - {t}| + (if t in a then 1 else 0)
  {
  }

  lemma {:induction false} FreeUncounted(s: State, e: Entry)
    requires Partition(s.tb) && StillBound(s.tb.tree, s.pc) && e in s.tb.free
    ensures Counted(s.pc, e) == {}
    ensures !HasOwner(s.pc, e)
  {
  }

  lemma {:induction false} EnterCounts(s: State, t: Tid, k: Key)
    requires Inv(s) && Enabled(s, Enter(t, k))
    ensures Partition(Next(s, Enter(t, k)).tb)
    ensures CountsRefs(Next(s, Enter(t, k)))
  {
    var s' := Next(s, Enter(t, k));
    EnsurePartition(s.tb, k);
    var e := s'.pc[t].e;
    if k !in s.tb.tree {
      assert e in s.tb.free;
      FreeUncounted(s, e);
    }
    forall k' | k' in s'.tb.tree
      ensures s'.tb.refcnt[s'.tb.tree[k']] == |Counted(s'.pc, s'.tb.tree[k'])|
      ensures |Counted(s'.pc, s'.tb.tree[k'])| > 0
    {
      CountedAfter(s.pc, t, s'.pc[t], s'.tb.tree[k']);
      assert k' != k ==> s'.tb.tree[k'] != e;
    }
  }

  lemma {:induction false} EnterLocked(s: State, t: Tid, k: Key)
    requires Inv(s) && Enabled(s, Enter(t, k))
    ensures Partition(Next(s, Enter(t, k)).tb)
    ensures LockedIffOwned(Next(s, Enter(t, k)))
  {
    var s' := Next(s, Enter(t, k));
    EnsurePartition(s.tb, k);
    var e := s'.pc[t].e;
    if k !in s.tb.tree {
      assert e in s.tb.free;
      FreeUncounted(s, e);
    }
    forall k' | k' in s'.tb.tree ensures s'.tb.locked[s'.tb.tree[k']] <==> HasOwner(s'.pc, s'.tb.tree[k']) {
      OwnersAfter(s.pc, t, s'.pc[t], s'.tb.tree[k']);
      assert k' != k ==> s'.tb.tree[k'] != e;
    }
  }

  lemma {:induction false} OwnersAfter(pc: map<Tid, Pc>, t: Tid, p: Pc, e: Entry)
    requires t in pc && Owns(pc[t], e) == Owns(p, e)
    ensures HasOwner(pc, e) == HasOwner(pc[t := p], e)
  {
    var pc' := pc[t := p];
    if HasOwner(pc, e) {
      var x :| x in pc && Owns(pc[x], e);
      assert Owns(pc'[x], e);
    }
    if HasOwner(pc', e) {
      var x :| x in pc' && Owns(pc'[x], e);
      assert Owns(pc[x], e);
    }
  }

  lemma {:induction false} OneOwnerAfter(pc: map<Tid, Pc>, t: Tid, p: Pc)
    requires t in pc && OneOwner(pc)
    requires p.Holding? || p.Releasing? ==> Owns(pc[t], p.e) || !HasOwner(pc, p.e)
    ensures OneOwner(pc[t := p])
  {
  }

  lemma {:induction false} AwakeAfter(pc: map<Tid, Pc>, t: Tid, p: Pc, e: Entry)
    requires t in pc && HasAwake(pc, e) && !(pc[t].Awake? && pc[t].e == e)
    ensures HasAwake(pc[t := p], e)
  {
    var x :| x in pc && pc[x].Awake? && pc[x].e == e;
    assert pc[t := p][x].Awake?;
  }

  lemma {:induction false} EnterWakes(s: State, t: Tid, k: Key)
    requires Inv(s) && Enabled(s, Enter(t, k))
    ensures NoLostWakeup(Next(s, Enter(t, k)))
  {
    var s' := Next(s, Enter(t, k));
    forall x | x in s'.pc && s'.pc[x].Asleep? ensures HasOwner(s'.pc, s'.pc[x].e) || HasAwake(s'.pc, s'.pc[x].e) {
      var e := s.pc[x].e;
      OwnersAfter(s.pc, t, s'.pc[t], e);
      if HasAwake(s.pc, e) { AwakeAfter(s.pc, t, s'.pc[t], e); }
    }
  }

  lemma {:induction false} EnterKeeps(s: State, t: Tid, k: Key)
    requires Inv(s) && Enabled(s, Enter(t, k))
    ensures Inv(Next(s, Enter(t, k)))
  {
    EnterCounts(s, t, k);
    EnterLocked(s, t, k);
    EnterWakes(s, t, k);
    EnsurePartition(s.tb, k);
    OneOwnerAfter(s.pc, t, Next(s, Enter(t, k)).pc[t]);
    hide CountsRefs, LockedIffOwned, NoLostWakeup, Partition, OneOwner;
  }

  lemma {:induction false} TestCounts(s: State, t: Tid)
    requires Inv(s) && Enabled(s, Test(t))
    ensures Partition(Next(s, Test(t)).tb)
    ensures CountsRefs(Next(s, Test(t)))
    ensures LockedIffOwned(Next(s, Test(t)))
  {
    var s', e := Next(s, Test(t)), s.pc[t].e;
    assert s'.tb.tree == s.tb.tree;
    forall k | k in s.tb.tree
      ensures s'.tb.refcnt[s.tb.tree[k]] == |Counted(s'.pc, s.tb.tree[k])|
      ensures |Counted(s'.pc, s.tb.tree[k])| > 0
      ensures s'.tb.locked[s.tb.tree[k]] <==> HasOwner(s'.pc, s.tb.tree[k])
    {
      CountedAfter(s.pc, t, s'.pc[t], s.tb.tree[k]);
      if s.tb.locked[e] || s.tb.tree[k] != e {
        OwnersAfter(s.pc, t, s'.pc[t], s.tb.tree[k]);
      } else {
        assert Owns(s'.pc[t], e);
      }
    }
  }

  lemma {:induction false} TestWakes(s: State, t: Tid)
    requires Inv(s) && Enabled(s, Test(t))
    ensures NoLostWakeup(Next(s, Test(t)))
  {
    var s', e := Next(s, Test(t)), s.pc[t].e;
    assert HasOwner(s'.pc, e) by {
      if s.tb.locked[e] {
        OwnersAfter(s.pc, t, s'.pc[t], e);
      } else {
        assert Owns(s'.pc[t], e);
      }
    }
    forall x | x in s'.pc && s'.pc[x].Asleep? && s'.pc[x].e != e
      ensures HasOwner(s'.pc, s'.pc[x].e) || HasAwake(s'.pc, s'.pc[x].e)
    {
      OwnersAfter(s.pc, t, s'.pc[t], s.pc[x].e);
      if HasAwake(s.pc, s.pc[x].e) { AwakeAfter(s.pc, t, s'.pc[t], s.pc[x].e); }
    }
  }

  lemma {:induction false} TestKeeps(s: State, t: Tid)
    requires Inv(s) && Enabled(s, Test(t))
    ensures Inv(Next(s, Test(t)))
  {
    TestCounts(s, t);
    TestWakes(s, t);
    OneOwnerAfter(s.pc, t, Next(s, Test(t)).pc[t]);
    hide CountsRefs, LockedIffOwned, NoLostWakeup, OneOwner;
  }

  lemma {:induction false} WakeKeeps(s: State, t: Tid)
    requires Inv(s) && Enabled(s, Wake(t))
    ensures Inv(Next(s, Wake(t)))
  {
    var s' := Next(s, Wake(t));
    forall k | k in s.tb.tree
      ensures |Counted(s'.pc, s.tb.tree[k])| == |Counted(s.pc, s.tb.tree[k])|
      ensures HasOwner(s'.pc, s.tb.tree[k]) == HasOwner(s.pc, s.tb.tree[k])
    {
      CountedAfter(s.pc, t, s'.pc[t], s.tb.tree[k]);
      OwnersAfter(s.pc, t, s'.pc[t], s.tb.tree[k]);
    }
    forall x | x in s'.pc && s'.pc[x].Asleep? ensures HasOwner(s'.pc, s'.pc[x].e) || HasAwake(s'.pc, s'.pc[x].e) {
      OwnersAfter(s.pc, t, s'.pc[t], s.pc[x].e);
      if HasAwake(s.pc, s.pc[x].e) { AwakeAfter(s.pc, t, s'.pc[t], s.pc[x].e); }
    }
  }

  /** When the last reference goes, nobody else knows the entry, not even a thread about to clear it. */
  lemma {:induction false} LastReference(s: State, t: Tid, x: Tid)
    requires Inv(s) && Enabled(s, Drop(t)) && x in s.pc && x != t
    requires s.tb.refcnt[s.pc[t].e] == 1
    ensures s.pc[x].Idle? || s.pc[x].e != s.pc[t].e
  {
    var e := s.pc[t].e;
    var c := Counted(s.pc, e);
    assert t in c && |c| == 1;
    assert x !in c by {
      Without(c, t);
      assert c - {t} == {};
    }
    assert Owns(s.pc[t], e);
    assert !Owns(s.pc[x], e);
  }

  lemma {:induction false} DropBound(s: State, t: Tid)
    requires Inv(s) && Enabled(s, Drop(t))
    ensures StillBound(Next(s, Drop(t)).tb.tree, Next(s, Drop(t)).pc)
  {
    var s', e := Next(s, Drop(t)), s.pc[t].e;
    forall x | x in s'.pc ensures IsBound(s'.tb.tree, s'.pc[x]) {
      assert IsBound(s.tb.tree, s.pc[x]);
      if s.tb.refcnt[e] == 1 && x != t { LastReference(s, t, x); }
    }
  }

  lemma {:induction false} BoundHolder(s: State, t: Tid)
    requires Inv(s) && Enabled(s, Drop(t))
    ensures s.pc[t].k in s.tb.tree && s.tb.tree[s.pc[t].k] == s.pc[t].e
  {
    hide CountsRefs, LockedIffOwned, NoLostWakeup, OneOwner;
    assert IsBound(s.tb.tree, s.pc[t]);
  }

  lemma {:induction false} DropCount(s: State, t: Tid, k: Key)
    requires Inv(s) && Enabled(s, Drop(t)) && k in Next(s, Drop(t)).tb.tree
    ensures var s' := Next(s, Drop(t));
            Partition(s'.tb) && s'.tb.refcnt[s'.tb.tree[k]] == |Counted(s'.pc, s'.tb.tree[k])| > 0
  {
    hide LockedIffOwned, NoLostWakeup, OneOwner, StillBound, Counted;
    TakePartition(s.tb, s.pc[t].k);
    BoundHolder(s, t);
    var e := s.tb.tree[k];
    assert s.tb.refcnt[e] == |Counted(s.pc, e)| > 0;
    CountedAfter(s.pc, t, Next(s, Drop(t)).pc[t], e);
  }

  lemma {:induction false} DropCounts(s: State, t: Tid)
    requires Inv(s) && Enabled(s, Drop(t))
    ensures Partition(Next(s, Drop(t)).tb)
    ensures CountsRefs(Next(s, Drop(t)))
  {
    hide LockedIffOwned, NoLostWakeup, OneOwner, StillBound, Counted;
    TakePartition(s.tb, s.pc[t].k);
    forall k | k in Next(s, Drop(t)).tb.tree
      ensures Next(s, Drop(t)).tb.refcnt[Next(s, Drop(t)).tb.tree[k]]
              == |Counted(Next(s, Drop(t)).pc, Next(s, Drop(t)).tb.tree[k])| > 0
    {
      DropCount(s, t, k);
    }
  }

  lemma {:induction false} DropLocked(s: State, t: Tid)
    requires Inv(s) && Enabled(s, Drop(t))
    ensures Partition(Next(s, Drop(t)).tb)
    ensures LockedIffOwned(Next(s, Drop(t)))
  {
    hide CountsRefs, NoLostWakeup, OneOwner;
    var s', k := Next(s, Drop(t)), s.pc[t].k;
    TakePartition(s.tb, k);
    forall k' | k' in s'.tb.tree ensures s'.tb.locked[s'.tb.tree[k']] <==> HasOwner(s'.pc, s'.tb.tree[k']) {
      OwnersAfter(s.pc, t, s'.pc[t], s.tb.tree[k']);
    }
  }

  lemma {:induction false} DropWakes(s: State, t: Tid)
    requires Inv(s) && Enabled(s, Drop(t))
    ensures NoLostWakeup(Next(s, Drop(t)))
  {
    var s', e, k := Next(s, Drop(t)), s.pc[t].e, s.pc[t].k;
    forall x | x in s'.pc && s'.pc[x].Asleep? ensures HasOwner(s'.pc, s'.pc[x].e) || HasAwake(s'.pc, s'.pc[x].e) {
      if s.tb.refcnt[e] == 1 { LastReference(s, t, x); }
      OwnersAfter(s.pc, t, s'.pc[t], s.pc[x].e);
      if HasAwake(s.pc, s.pc[x].e) { AwakeAfter(s.pc, t, s'.pc[t], s.pc[x].e); }
    }
  }

  lemma {:induction false} DropKeeps(s: State, t: Tid)
    requires Inv(s) && Enabled(s, Drop(t))
    ensures Inv(Next(s, Drop(t)))
  {
    DropCounts(s, t);
    DropLocked(s, t);
    DropWakes(s, t);
    DropBound(s, t);
    OneOwnerAfter(s.pc, t, Next(s, Drop(t)).pc[t]);
    hide CountsRefs, LockedIffOwned, NoLostWakeup, Partition, StillBound, OneOwner;
  }

  lemma {:induction false} ClearCounts(s: State, t: Tid, w: Tid)
    requires Inv(s) && Enabled(s, Clear(t, w))
    ensures Partition(Next(s, Clear(t, w)).tb)
    ensures CountsRefs(Next(s, Clear(t, w)))
    ensures LockedIffOwned(Next(s, Clear(t, w)))
  {
    var s', e := Next(s, Clear(t, w)), s.pc[t].e;
    var mid := s.pc[t := Idle];
    forall k | k in s.tb.tree
      ensures s'.tb.refcnt[s.tb.tree[k]] == |Counted(s'.pc, s.tb.tree[k])|
      ensures |Counted(s'.pc, s.tb.tree[k])| > 0
      ensures s'.tb.locked[s.tb.tree[k]] <==> HasOwner(s'.pc, s.tb.tree[k])
    {
      var b := s.tb.tree[k];
      CountedAfter(s.pc, t, Idle, b);
      if s'.pc != mid {
        CountedAfter(mid, w, s'.pc[w], b);
        OwnersAfter(mid, w, s'.pc[w], b);
      }
      if b != e { OwnersAfter(s.pc, t, Idle, b); }
      assert Owns(s.pc[t], e);
    }
  }

  lemma {:induction false} ClearWakes(s: State, t: Tid, w: Tid)
    requires Inv(s) && Enabled(s, Clear(t, w))
    ensures NoLostWakeup(Next(s, Clear(t, w)))
  {
    var s', e := Next(s, Clear(t, w)), s.pc[t].e;
    var mid := s.pc[t := Idle];
    forall x | x in s'.pc && s'.pc[x].Asleep? ensures HasOwner(s'.pc, s'.pc[x].e) || HasAwake(s'.pc, s'.pc[x].e) {
      var b := s.pc[x].e;
      if b == e {
        assert Sleeps(s.pc[x], e);
        assert s'.pc[w].Awake? && s'.pc[w].e == e;
      } else {
        OwnersAfter(s.pc, t, Idle, b);
        if HasAwake(s.pc, b) { AwakeAfter(s.pc, t, Idle, b); }
        if s'.pc != mid {
          OwnersAfter(mid, w, s'.pc[w], b);
          if HasAwake(mid, b) { AwakeAfter(mid, w, s'.pc[w], b); }
        }
      }
    }
  }

  lemma {:induction false} ClearOwner(s: State, t: Tid, w: Tid)
    requires Inv(s) && Enabled(s, Clear(t, w))
    ensures OneOwner(Next(s, Clear(t, w)).pc)
  {
    hide CountsRefs, LockedIffOwned, NoLostWakeup, StillBound, HasSleeper;
    var pc := Next(s, Clear(t, w)).pc;
    forall x | x in pc ensures x in s.pc && forall e :: Owns(pc[x], e) ==> Owns(s.pc[x], e) { }
  }

  lemma {:induction false} ClearBound(s: State, t: Tid, w: Tid)
    requires Inv(s) && Enabled(s, Clear(t, w))
    ensures StillBound(Next(s, Clear(t, w)).tb.tree, Next(s, Clear(t, w)).pc)
  {
  }

  lemma {:induction false} ClearKeeps(s: State, t: Tid, w: Tid)
    requires Inv(s) && Enabled(s, Clear(t, w))
    ensures Inv(Next(s, Clear(t, w)))
  {
    ClearCounts(s, t, w);
    ClearWakes(s, t, w);
    ClearOwner(s, t, w);
    ClearBound(s, t, w);
    hide CountsRefs, LockedIffOwned, NoLostWakeup, Partition, OneOwner, StillBound;
  }

  lemma {:induction false} StepKeeps(s: State, a: Step)
    requires Inv(s) && Enabled(s, a)
    ensures Inv(Next(s, a))
  {
    match a
    case Enter(t, k) => EnterKeeps(s, t, k);
    case Test(t) => TestKeeps(s, t);
    case Wake(t) => WakeKeeps(s, t);
    case Drop(t) => DropKeeps(s, t);
    case Clear(t, w) => ClearKeeps(s, t, w);
  }

  // --------------------------------------------------------------------------
  // Runs
  // --------------------------------------------------------------------------

  /** A pool of `n` entries, all free, and idle threads. */
  function Init(n: nat, threads: set<Tid>): State {
    State(Table(map[], seq(n, i => i + 1), seq(n + 1, i => 0), seq(n + 1, i => false)),
          map t | t in threads :: Idle)
  }

  /** The state after an interleaving of steps; none when some step was not enabled. */
  ghost function After(n: nat, threads: set<Tid>, run: seq<Step>): Option<State> {
    if run == [] then Some(Init(n, threads))
    else
      var before := After(n, threads, run[..|run| - 1]);
      if before.Some? && Partition(before.value.tb) && Enabled(before.value, run[|run| - 1])
      then Some(Next(before.value, run[|run| - 1]))
      else None
  }

  lemma {:induction false} InitInv(n: nat, threads: set<Tid>)
    ensures Inv(Init(n, threads))
  {
    var tb := Init(n, threads).tb;
    forall e | 0 < e < n + 1 ensures e in tb.free {
      assert tb.free[e - 1] == e;
    }
  }

  lemma {:induction false} StepFrame(s: State, a: Step)
    requires Inv(s) && Enabled(s, a)
    ensures |Next(s, a).tb.refcnt| == |s.tb.refcnt|
    ensures Next(s, a).pc.Keys == s.pc.Keys
  {
    hide CountsRefs, LockedIffOwned, NoLostWakeup, OneOwner, StillBound, HasSleeper;
    if a.Enter? { EnsurePartition(s.tb, a.k); }
  }

  /** The invariant holds at the end of every interleaving. */
  lemma {:induction false} RunInv(n: nat, threads: set<Tid>, run: seq<Step>)
    requires After(n, threads, run).Some?
    ensures Inv(After(n, threads, run).value)
    ensures |After(n, threads, run).value.tb.refcnt| == n + 1
    ensures After(n, threads, run).value.pc.Keys == threads
  {
    if run == [] {
      InitInv(n, threads);
    } else {
      RunInv(n, threads, run[..|run| - 1]);
      var s := After(n, threads, run[..|run| - 1]).value;
      StepKeeps(s, run[|run| - 1]);
      StepFrame(s, run[|run| - 1]);
    }
  }

  /** At most one thread holds a key. */
  lemma {:induction false} MutualExclusion(n: nat, threads: set<Tid>, run: seq<Step>, t: Tid, t': Tid)
    requires After(n, threads, run).Some? && t in threads && t' in threads
    ensures var s := After(n, threads, run).value;
            && t in s.pc && t' in s.pc
            && (s.pc[t].Holding? && s.pc[t'].Holding? && s.pc[t].k == s.pc[t'].k ==> t == t')
  {
    RunInv(n, threads, run);
    var s := After(n, threads, run).value;
    if s.pc[t].Holding? && s.pc[t'].Holding? && s.pc[t].k == s.pc[t'].k {
      assert IsBound(s.tb.tree, s.pc[t]) && IsBound(s.tb.tree, s.pc[t']);
      assert Owns(s.pc[t], s.pc[t].e) && Owns(s.pc[t'], s.pc[t].e);
    }
  }

  /** An entry loses its key only when its holder gives back the last reference and no other thread uses it. */
  lemma {:induction false} UnboundOnlyUnused(s: State, a: Step, k: Key)
    requires Inv(s) && Enabled(s, a) && k in s.tb.tree
    requires k !in Next(s, a).tb.tree || Next(s, a).tb.tree[k] != s.tb.tree[k]
    ensures a.Drop? && s.pc[a.t] == Holding(s.tb.tree[k], k)
    ensures forall x :: x in s.pc && x != a.t ==> s.pc[x].Idle? || s.pc[x].e != s.tb.tree[k]
  {
    hide CountsRefs, LockedIffOwned, NoLostWakeup, OneOwner, HasSleeper;
    if a.Enter? { EnsurePartition(s.tb, a.k); }
    assert IsBound(s.tb.tree, s.pc[a.t]);
    forall x | x in s.pc && x != a.t ensures s.pc[x].Idle? || s.pc[x].e != s.tb.tree[k] {
      LastReference(s, a.t, x);
    }
  }

  /** While anyone waits for an entry, some thread of that entry can take a step of its own. */
  lemma {:induction false} WaiterMoves(s: State, t: Tid)
    requires Inv(s) && t in s.pc && (s.pc[t].Awake? || s.pc[t].Asleep?)
    ensures exists a: Step :: Enabled(s, a) && !a.Enter? && !a.Wake? && !s.pc[a.t].Idle? && s.pc[a.t].e == s.pc[t].e
  {
    hide CountsRefs, OneOwner;
    var e := s.pc[t].e;
    var x :| x in s.pc && (Owns(s.pc[x], e) || (s.pc[x].Awake? && s.pc[x].e == e));
    assert IsBound(s.tb.tree, s.pc[x]);
    if s.pc[x].Awake? {
      assert Enabled(s, Test(x));
    } else if s.pc[x].Holding? {
      assert Enabled(s, Drop(x));
    } else if HasSleeper(s.pc, e) {
      var w :| w in s.pc && Sleeps(s.pc[w], e);
      assert Enabled(s, Clear(x, w));
    } else {
      assert Enabled(s, Clear(x, x));
    }
  }

  // --------------------------------------------------------------------------
  // What locking and unlocking achieve
  // --------------------------------------------------------------------------

  /** A lock call that finds an entry leaves the thread waiting for the entry of its key, with a reference to it. */
  lemma {:induction false} EnterWaits(s: State, t: Tid, k: Key)
    requires Inv(s) && Enabled(s, Enter(t, k))
    ensures var s' := Next(s, Enter(t, k));
            && k in s'.tb.tree && s'.pc[t] == Awake(s'.tb.tree[k], k) && t in Counted(s'.pc, s'.tb.tree[k])
            && (k !in s.tb.tree ==> s'.tb.tree[k] < |s'.tb.locked| && !s'.tb.locked[s'.tb.tree[k]])
            && (k !in s.tb.tree ==> s.tb.free == [s'.tb.tree[k]] + s'.tb.free)
            && (forall x :: x in s.pc && x != t ==> s'.pc[x] == s.pc[x])
            && (forall k' :: k' in s.tb.tree ==> k' in s'.tb.tree && s'.tb.tree[k'] == s.tb.tree[k'])
  {
    hide CountsRefs, LockedIffOwned, NoLostWakeup, OneOwner, StillBound;
    EnsurePartition(s.tb, k);
  }

  /** One round of the wait loop sleeps exactly when the entry is locked, and otherwise takes the lock. */
  lemma {:induction false} TestDecides(s: State, t: Tid)
    requires Inv(s) && Enabled(s, Test(t))
    ensures var s', e, k := Next(s, Test(t)), s.pc[t].e, s.pc[t].k;
            && s'.pc == s.pc[t := if s.tb.locked[e] then Asleep(e, k) else Holding(e, k)]
            && s'.tb == s.tb.(locked := s.tb.locked[e := true])
  {
    hide CountsRefs, LockedIffOwned, NoLostWakeup, OneOwner, StillBound;
    assert s.tb.locked[s.pc[t].e] ==> s.tb.locked[s.pc[t].e := true] == s.tb.locked;
  }

  /** A wakeup without a signal changes nothing but that the thread tests again. */
  lemma {:induction false} WakeTestsAgain(s: State, t: Tid)
    requires Inv(s) && Enabled(s, Wake(t))
    ensures var s' := Next(s, Wake(t));
            s'.tb == s.tb && s'.pc == s.pc[t := Awake(s.pc[t].e, s.pc[t].k)] && Enabled(s', Test(t))
  {
    hide CountsRefs, LockedIffOwned, NoLostWakeup, OneOwner;
    assert IsBound(s.tb.tree, s.pc[t]);
  }

  /** The end of an unlock: the entry is free for others, the signalled sleeper is awake, nobody else is touched. */
  lemma {:induction false} ClearReleases(s: State, t: Tid, w: Tid)
    requires Inv(s) && Enabled(s, Clear(t, w))
    ensures var s', e := Next(s, Clear(t, w)), s.pc[t].e;
            && s'.pc[t].Idle? && e < |s'.tb.locked| && !s'.tb.locked[e]
            && (HasSleeper(s.pc, e) ==> w in s'.pc && s'.pc[w] == Awake(e, s.pc[w].k))
            && (forall x :: x in s.pc && x != t && !(x == w && Sleeps(s.pc[w], e)) ==>
                  x in s'.pc && s'.pc[x] == s.pc[x])
            && s'.tb.locked == s.tb.locked[e := false]
            && s'.tb.tree == s.tb.tree && s'.tb.free == s.tb.free && s'.tb.refcnt == s.tb.refcnt
  {
    hide CountsRefs, LockedIffOwned, NoLostWakeup, OneOwner, StillBound;
  }

  /** The unlock of a key with other users gives the reference back and goes on to clear the entry. */
  lemma {:induction false} DropReleases(s: State, t: Tid, x: Tid)
    requires Inv(s) && Enabled(s, Drop(t)) && x in s.pc && Waits(s.pc[x], s.pc[t].e)
    ensures Next(s, Drop(t)).pc == s.pc[t := Releasing(s.pc[t].e, s.pc[t].k)]
  {
    hide LockedIffOwned, NoLostWakeup, OneOwner;
    var e, k := s.pc[t].e, s.pc[t].k;
    BoundHolder(s, t);
    var c := Counted(s.pc, e);
    assert t in c && x in c && t != x;
    Subset({t, x}, c);
    assert s.tb.refcnt[e] == |c|;
  }

  /** The unlock of a key that nobody else uses ends at once, with the entry back at the end of the free list. */
  lemma {:induction false} DropUnbinds(s: State, t: Tid)
    requires Inv(s) && Enabled(s, Drop(t)) && forall x :: x in s.pc && x != t ==> !Waits(s.pc[x], s.pc[t].e)
    ensures var s' := Next(s, Drop(t));
            s'.pc == s.pc[t := Idle] && s.pc[t].k !in s'.tb.tree && s'.tb.free == s.tb.free + [s.pc[t].e]
  {
    hide LockedIffOwned, NoLostWakeup;
    var e := s.pc[t].e;
    BoundHolder(s, t);
    forall x | x in Counted(s.pc, e) ensures x == t {
      assert Owns(s.pc[t], e);
      assert Waits(s.pc[x], e) || Owns(s.pc[x], e);
    }
    assert Counted(s.pc, e) == {t};
  }

  /** Where a run leads from a state, if each of its steps is possible. */
  ghost function From(s: State, run: seq<Step>): Option<State> {
    if run == [] then Some(s)
    else
      var before := From(s, run[..|run| - 1]);
      if before.Some? && Partition(before.value.tb) && Enabled(before.value, run[|run| - 1])
      then Some(Next(before.value, run[|run| - 1]))
      else None
  }

  /** No new lock call and no spurious wakeup. */
  predicate Quiet(run: seq<Step>) {
    forall i :: 0 <= i < |run| ==> !run[i].Enter? && !run[i].Wake?
  }

  lemma {:induction false} OneMore(s: State, run: seq<Step>, s1: State, a: Step)
    requires From(s, run) == Some(s1) && Inv(s1) && Enabled(s1, a) && Quiet(run) && !a.Enter? && !a.Wake?
    ensures From(s, run + [a]) == Some(Next(s1, a)) && Quiet(run + [a]) && Inv(Next(s1, a))
  {
    hide StillBound, CountsRefs, OneOwner, LockedIffOwned, NoLostWakeup, Enabled, Next;
    assert (run + [a])[..|run|] == run;
    StepKeeps(s1, a);
  }

  lemma {:induction false} WaiterBound(s: State, t: Tid)
    requires Inv(s) && t in s.pc && !s.pc[t].Idle?
    ensures s.pc[t].k in s.tb.tree && s.tb.tree[s.pc[t].k] == s.pc[t].e && s.pc[t].e < |s.tb.locked| == |s.tb.refcnt|
    ensures s.tb.locked[s.pc[t].e] <==> HasOwner(s.pc, s.pc[t].e)
  {
    hide CountsRefs, OneOwner, NoLostWakeup;
    assert IsBound(s.tb.tree, s.pc[t]);
  }

  /** Once its owner has unlocked, a waiter that the owner signals, or that is awake, can go on. */
  lemma {:induction false} OwnerUnlocks(s: State, run: seq<Step>, s1: State, x: Tid, t: Tid)
    returns (run': seq<Step>, s2: State)
    requires From(s, run) == Some(s1) && Inv(s1) && Quiet(run) && x in s1.pc && t in s1.pc
    requires !s1.pc[x].Idle? && Owns(s1.pc[x], s1.pc[x].e) && Waits(s1.pc[t], s1.pc[x].e)
    ensures From(s, run') == Some(s2) && Inv(s2) && Quiet(run') && t in s2.pc
    ensures s2.pc[t] == Awake(s1.pc[t].e, s1.pc[t].k)
    ensures s2.pc[t].e < |s2.tb.locked| && !s2.tb.locked[s2.pc[t].e]
  {
    hide StillBound, CountsRefs, OneOwner, LockedIffOwned, NoLostWakeup, Next, From;
    var e := s1.pc[x].e;
    run', s2 := run, s1;
    if s1.pc[x].Holding? {
      DropReleases(s1, x, t);
      OneMore(s, run, s1, Drop(x));
      run', s2 := run + [Drop(x)], Next(s1, Drop(x));
    }
    WaiterBound(s2, x);
    var w: Tid := if s2.pc[t].Asleep? then t else x;
    if HasSleeper(s2.pc, e) && w == x {
      w :| w in s2.pc && Sleeps(s2.pc[w], e);
    }
    ClearReleases(s2, x, w);
    OneMore(s, run', s2, Clear(x, w));
    run', s2 := run' + [Clear(x, w)], Next(s2, Clear(x, w));
  }

  lemma {:induction false} TakesLock(s: State, t: Tid)
    requires Inv(s) && t in s.pc && s.pc[t].Awake? && s.pc[t].e < |s.tb.locked| && !s.tb.locked[s.pc[t].e]
    ensures Enabled(s, Test(t)) && Next(s, Test(t)).pc == s.pc[t := Holding(s.pc[t].e, s.pc[t].k)]
  {
  }

  ghost predicate Obtains(s: State, run: seq<Step>, t: Tid, k: Key) {
    From(s, run).Some? && Quiet(run) && t in From(s, run).value.pc
    && From(s, run).value.pc[t].Holding? && From(s, run).value.pc[t].k == k
  }

  /** From a state in which the waiter is awake and the entry free, or some other thread owns it. */
  lemma {:induction false} OwnedProgress(s: State, run: seq<Step>, s1: State, t: Tid)
    requires From(s, run) == Some(s1) && Inv(s1) && Quiet(run) && t in s1.pc && (s1.pc[t].Awake? || s1.pc[t].Asleep?)
    requires s1.pc[t].Asleep? ==> HasOwner(s1.pc, s1.pc[t].e)
    ensures exists run' :: Obtains(s, run', t, s1.pc[t].k)
  {
    hide StillBound, CountsRefs, OneOwner, LockedIffOwned, NoLostWakeup, Enabled, Next, From, Quiet;
    WaiterBound(s1, t);
    var run', s2 := run, s1;
    if HasOwner(s1.pc, s1.pc[t].e) {
      var x :| x in s1.pc && Owns(s1.pc[x], s1.pc[t].e);
      run', s2 := OwnerUnlocks(s, run, s1, x, t);
    }
    TakesLock(s2, t);
    OneMore(s, run', s2, Test(t));
    assert Obtains(s, run' + [Test(t)], t, s1.pc[t].k);
  }

  /**
   Progress: from every state, every waiter obtains its key on some run of the threads that are there, without
   new lock calls and without spurious wakeups.
   */
  lemma {:induction false} Progress(s: State, t: Tid)
    requires Inv(s) && t in s.pc && (s.pc[t].Awake? || s.pc[t].Asleep?)
    ensures exists run :: Obtains(s, run, t, s.pc[t].k)
  {
    hide StillBound, CountsRefs, OneOwner, LockedIffOwned, Enabled, Next;
    var e := s.pc[t].e;
    if s.pc[t].Awake? || HasOwner(s.pc, e) {
      OwnedProgress(s, [], s, t);
    } else {
      var y :| y in s.pc && s.pc[y].Awake? && s.pc[y].e == e;
      WaiterBound(s, y);
      TakesLock(s, y);
      OneMore(s, [], s, Test(y));
      var s1 := Next(s, Test(y));
      assert Owns(s1.pc[y], e);
      assert [] + [Test(y)] == [Test(y)];
      OwnedProgress(s, [Test(y)], s1, t);
    }
  }

  /** A lock call that finds an entry can always end with the thread holding its key, at any point of any run. */
  lemma {:induction false} LockSucceeds(n: nat, threads: set<Tid>, run: seq<Step>, t: Tid, k: Key)
    requires After(n, threads, run).Some? && Partition(After(n, threads, run).value.tb)
    requires Enabled(After(n, threads, run).value, Enter(t, k))
    ensures exists run' :: Obtains(Next(After(n, threads, run).value, Enter(t, k)), run', t, k)
  {
    hide Inv, Enabled, Next, Obtains;
    RunInv(n, threads, run);
    var s := After(n, threads, run).value;
    EnterWaits(s, t, k);
    StepKeeps(s, Enter(t, k));
    StepFrame(s, Enter(t, k));
    InPc(s, Enter(t, k));
    Progress(Next(s, Enter(t, k)), t);
  }

  lemma {:induction false} InPc(s: State, a: Step)
    requires Inv(s) && Enabled(s, a)
    ensures a.t in s.pc
  {
  }

  // --------------------------------------------------------------------------
  // How large the pool has to be
  // --------------------------------------------------------------------------

  /** The busy threads on entries up to `m`. */
  function Users(pc: map<Tid, Pc>, m: nat): set<Tid> {
    set t | t in pc && !pc[t].Idle? && pc[t].e <= m
  }

  lemma {:induction false} UserOf(s: State, e: Entry) returns (t: Tid)
    requires Inv(s) && e in s.tb.tree.Values
    ensures t in Counted(s.pc, e)
  {
    var k :| k in s.tb.tree && s.tb.tree[k] == e;
    assert |Counted(s.pc, e)| > 0;
    t :| t in Counted(s.pc, e);
  }

  lemma {:induction false} UsersCover(s: State, m: nat)
    requires Inv(s) && m < |s.tb.refcnt|
    requires forall e :: 0 < e <= m ==> e in s.tb.tree.Values
    ensures |Users(s.pc, m)| >= m
  {
    hide Inv;
    if m != 0 {
      UsersCover(s, m - 1);
      var t := UserOf(s, m);
      var less := Users(s.pc, m - 1);
      assert less + {t} <= Users(s.pc, m) && t !in less;
      Subset(less + {t}, Users(s.pc, m));
    }
  }

  lemma {:induction false} Subset(a: set<Tid>, b: set<Tid>)
    requires a <= b
    ensures |a| <= |b|
  {
    if a != {} {
      var t :| t in a;
      Subset(a - {t}, b - {t});
    }
  }

  /** The lock requests in progress: waiting, holding or releasing. */
  function InProgress(pc: map<Tid, Pc>): set<Tid> {
    set t | t in pc && !pc[t].Idle?
  }

  /** On every run, a lock finds an entry while fewer requests are in progress than there are entries. */
  lemma {:induction false} PoolSuffices(n: nat, threads: set<Tid>, run: seq<Step>, k: Key)
    requires After(n, threads, run).Some? && Partition(After(n, threads, run).value.tb)
    requires |InProgress(After(n, threads, run).value.pc)| < n
    ensures Ensure(After(n, threads, run).value.tb, k).1 != 0
  {
    RunInv(n, threads, run);
    var s := After(n, threads, run).value;
    if s.tb.free == [] {
      assert forall e :: 0 < e <= n ==> e in s.tb.tree.Values;
      UsersCover(s, n);
      Subset(Users(s.pc, n), InProgress(s.pc));
    } else {
      assert s.tb.free[0] in s.tb.free;
    }
  }

  /** The run in which the first `i` threads of `ts` lock the keys 0, 1, ... */
  function FillRun(ts: seq<Tid>, i: nat): seq<Step>
    requires i <= |ts|
  {
    seq(i, j requires 0 <= j < i => Enter(ts[j], j))
  }

  lemma {:induction false} FillStep(ts: seq<Tid>, s: State, n: nat, i: nat)
    requires 0 < i <= n < |ts| && Partition(s.tb) && |s.tb.free| == n - i + 1
    requires forall x, y :: 0 <= x < y < |ts| ==> ts[x] != ts[y]
    requires forall k :: k in s.tb.tree <==> 0 <= k < i - 1
    requires forall j :: i - 1 <= j < |ts| ==> ts[j] in s.pc && s.pc[ts[j]].Idle?
    ensures Enabled(s, Enter(ts[i - 1], i - 1))
    ensures var s' := Next(s, Enter(ts[i - 1], i - 1));
            && |s'.tb.free| == n - i
            && (forall k :: k in s'.tb.tree <==> 0 <= k < i)
            && (forall j :: i <= j < |ts| ==> ts[j] in s'.pc && s'.pc[ts[j]].Idle?)
  {
  }

  lemma {:induction false} Filled(ts: seq<Tid>, threads: set<Tid>, n: nat, i: nat)
    requires i <= n < |ts|
    requires forall x :: x in threads <==> x in ts
    requires forall x, y :: 0 <= x < y < |ts| ==> ts[x] != ts[y]
    ensures After(n, threads, FillRun(ts, i)).Some?
    ensures var s := After(n, threads, FillRun(ts, i)).value;
            && |s.tb.free| == n - i
            && (forall k :: k in s.tb.tree <==> 0 <= k < i)
            && (forall j :: i <= j < |ts| ==> ts[j] in s.pc && s.pc[ts[j]].Idle?)
  {
    var run := FillRun(ts, i);
    if i == 0 {
      assert run == [];
    } else {
      Filled(ts, threads, n, i - 1);
      assert run[..i - 1] == FillRun(ts, i - 1);
      assert run[i - 1] == Enter(ts[i - 1], i - 1);
      RunInv(n, threads, FillRun(ts, i - 1));
      hide CountsRefs, LockedIffOwned, NoLostWakeup, OneOwner, StillBound;
      FillStep(ts, After(n, threads, FillRun(ts, i - 1)).value, n, i);
    }
  }

  /** With fewer entries than threads, some run leaves an idle thread whose lock call finds no entry. */
  lemma {:induction false} PoolExhausted(ts: seq<Tid>, threads: set<Tid>, n: nat)
    requires n < |ts|
    requires forall x :: x in threads <==> x in ts
    requires forall x, y :: 0 <= x < y < |ts| ==> ts[x] != ts[y]
    ensures var end := After(n, threads, FillRun(ts, n));
            && end.Some? && Inv(end.value) && ts[n] in end.value.pc && end.value.pc[ts[n]].Idle?
            && Ensure(end.value.tb, n).1 == 0
  {
    Filled(ts, threads, n, n);
    RunInv(n, threads, FillRun(ts, n));
  }
}
