/**
 The lock pool over the red-black tree: the critical sections of locking and
 unlocking, each proved equal to the atomic step of `OpLock` it stands for.
 */
module LockPool {
  import opened RbShape
  import opened RbMemory
  import opened KeyIndex
  import OpLock

  class LockPool {
    const index: KeyIndex
    var free: seq<Addr>
    var refcnt: seq<int>
    var locked: seq<bool>

    ghost function Table(): OpLock.Table
      reads this, index
    {
      OpLock.Table(index.bindings, free, refcnt, locked)
    }

    ghost predicate Valid()
      reads this, index, index.tree
    {
      index.Valid() && |index.key| == |refcnt| && OpLock.Partition(Table())
    }

    /** All entries start on the free list, in order. */
    constructor (n: nat)
      ensures Valid() && Table() == OpLock.Init(n, {}).tb
      ensures fresh(index) && fresh(index.tree)
    {
      index := new KeyIndex(n);
      free := seq(n, i => i + 1);
      refcnt := seq(n + 1, i => 0);
      locked := seq(n + 1, i => false);
      new;
      OpLock.InitInv(n, {});
    }

    method Lookup(k: Key) returns (entry: Addr)
      requires index.Valid()
      ensures entry == if k in index.bindings then index.bindings[k] else 0
    {
      var steps;
      entry, steps := index.Search(k);
    }

    method Bind(entry: Addr, k: Key)
      requires index.Valid() && 0 < entry < |index.key| && entry !in index.bindings.Values && k !in index.bindings
      modifies index, index.tree
      ensures index.Valid() && index.bindings == old(index.bindings)[k := entry] && |index.key| == old(|index.key|)
    {
      index.SetKey(entry, k);
      var ok := index.Insert(entry);
    }

    method Unbind(entry: Addr, ghost k: Key)
      requires index.Valid() && k in index.bindings && index.bindings[k] == entry
      modifies index, index.tree
      ensures index.Valid() && index.bindings == old(index.bindings) - {k} && |index.key| == old(|index.key|)
    {
      index.BoundKey(k);
      index.Remove(entry);
    }

    /** `dnet_oplock_ensure`, under the pool's mutex. */
    method Ensure(k: Key) returns (entry: Addr)
      requires Valid()
      modifies this, index, index.tree
      ensures Valid() && (Table(), entry) == OpLock.Ensure(old(Table()), k)
      ensures entry == 0 <==> k !in old(index.bindings) && old(free) == []
      ensures index.bindings == if entry != 0 then old(index.bindings)[k := entry] else old(index.bindings)
    {
      hide Holds, IsRb, Zeroed, Decreasing, Binds, OpLock.Partition;
      OpLock.EnsurePartition(Table(), k);
      OpLock.PoolFacts(Table(), k);
      entry := Lookup(k);
      if entry != 0 {
        refcnt := refcnt[entry := refcnt[entry] + 1];
      } else if free != [] {
        entry := free[0];
        free := free[1..];
        locked := locked[entry := false];
        refcnt := refcnt[entry := 1];
        Bind(entry, k);
      }
    }

    /** `dnet_oplock_take`, under the pool's mutex. */
    method Take(k: Key) returns (entry: Addr)
      requires Valid()
      modifies this, index, index.tree
      ensures Valid() && (Table(), entry) == OpLock.Take(old(Table()), k)
      ensures entry != 0 ==> index.bindings == old(index.bindings) && k in index.bindings && entry == index.bindings[k]
      ensures entry == 0 ==> index.bindings == old(index.bindings) - {k}
    {
      hide Holds, IsRb, Zeroed, Decreasing, Binds, OpLock.Partition;
      OpLock.TakePartition(Table(), k);
      OpLock.PoolFacts(Table(), k);
      entry := Lookup(k);
      if entry == 0 {
        return;
      }
      refcnt := refcnt[entry := refcnt[entry] - 1];
      if refcnt[entry] == 0 {
        Unbind(entry, k);
        free := free + [entry];
        entry := 0;
      }
    }

    /** One round of the wait loop under the entry's mutex: take the lock, or learn that it is held. */
    method Test(entry: Addr, ghost t: OpLock.Tid, ghost s: OpLock.State) returns (held: bool)
      requires Valid() && s.tb == Table() && OpLock.Inv(s)
      requires OpLock.Enabled(s, OpLock.Test(t)) && s.pc[t].e == entry
      modifies `locked
      ensures Valid() && Table() == OpLock.Next(s, OpLock.Test(t)).tb
      ensures held == old(locked)[entry] && locked == old(locked)[entry := true]
      ensures OpLock.Next(s, OpLock.Test(t)).pc[t] ==
              if held then OpLock.Asleep(entry, s.pc[t].k) else OpLock.Holding(entry, s.pc[t].k)
    {
      hide OpLock.CountsRefs, OpLock.LockedIffOwned, OpLock.NoLostWakeup, OpLock.OneOwner, OpLock.StillBound;
      held := locked[entry];
      if !held {
        locked := locked[entry := true];
      }
    }

    /** The end of `dnet_opunlock` under the entry's mutex; which sleeper the signal wakes is not decided here. */
    method Clear(entry: Addr, ghost t: OpLock.Tid, ghost w: OpLock.Tid, ghost s: OpLock.State)
      requires Valid() && s.tb == Table() && OpLock.Inv(s)
      requires OpLock.Enabled(s, OpLock.Clear(t, w)) && s.pc[t].e == entry
      modifies `locked
      ensures Valid() && Table() == OpLock.Next(s, OpLock.Clear(t, w)).tb
      ensures locked == old(locked)[entry := false]
    {
      hide OpLock.CountsRefs, OpLock.LockedIffOwned, OpLock.NoLostWakeup, OpLock.OneOwner, OpLock.StillBound;
      locked := locked[entry := false];
    }
  }
}
