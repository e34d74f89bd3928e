/**
 The write-back cache: every operation is proved against the plain store that
 cache and backend together stand for.
 */
module Cache {
  import opened Basics
  import opened CacheState
  import opened CacheKey

  class Cache {
    var entries: Entries
    var lru: seq<Id>
    var life: set<Id>
    var sync: set<Id>
    var size: nat
    var max: nat
    var disk: Disk
    const syncTimeout: nat

    /** The containers agree with each other; `out` is taken out of the LRU list. */
    ghost predicate Structure(out: set<Id>)
      reads this
    {
      && Linked(entries, lru, out)
      && SyncExact(entries, sync)
      && LifeExact(entries, life)
      && size == ListBytes(entries, lru)
    }

    ghost predicate Valid()
      reads this
    {
      Structure({}) && AllSound(entries, disk, {})
    }

    /** The entry is the most recently used one. */
    ghost predicate Latest(id: Id)
      reads this
    {
      id in entries && lru != [] && lru[|lru| - 1] == id
    }

    /** An empty cache over an existing backend. */
    constructor (maxSize: nat, timeout: nat, backend: Disk)
      ensures Valid() && entries == map[] && disk == backend && max == maxSize
    {
      entries, lru, life, sync, size := map[], [], {}, {}, 0;
      max, syncTimeout, disk := maxSize, timeout, backend;
    }

    /** Writes the object back: the backend then holds what cache and backend stood for together. */
    method SyncElement(id: Id, obj: Entry)
      modifies `disk
      ensures Lookup(disk, id) == Value(map[id := obj], old(disk), id)
      ensures forall x :: x != id ==> Lookup(disk, x) == Lookup(old(disk), x)
      ensures disk == Flushed(obj, old(disk), id)
    {
      if obj.onlyAppend {
        disk := disk[id := Get(Lookup(disk, id)) + obj.data];
      } else {
        disk := disk[id := obj.data];
      }
    }

    /** Drops an entry from all containers, writing it back first if it is dirty. */
    method EraseElement(id: Id, ghost out: set<Id>) returns (ghost i: nat)
      requires Structure(out) && id in lru
      modifies `entries, `lru, `life, `sync, `size, `disk
      ensures Structure(out) && entries == old(entries) - {id} && size + |old(entries)[id].data| == old(size)
      ensures i < |old(lru)| && old(lru)[i] == id && lru == RemoveAt(old(lru), i)
      ensures disk == if old(entries)[id].synctime != 0 then Flushed(old(entries)[id], old(disk), id) else old(disk)
      ensures SameOrder(old(lru), lru, {})
    {
      hide Linked, SyncExact, LifeExact, ListBytes, RemoveAt, Flushed, SameOrder;
      var j :| 0 <= j < |lru| && lru[j] == id;
      i := j;
      Dropped(entries, lru, sync, life, out, i);
      OnceListed(entries, lru, out, i);
      OrderErase(lru, i);
      var obj := entries[id];
      lru := RemoveAt(lru, j);
      entries := entries - {id};
      if obj.lifetime != 0 {
        life := life - {id};
      } else {
        assert life - {id} == life;
      }
      if obj.synctime != 0 {
        SyncElement(id, obj);
        sync := sync - {id};
      } else {
        assert sync - {id} == sync;
      }
      size := size - |obj.data|;
    }

    /** Marks a dirty entry for eviction and moves it to the front of the sync set. */
    method Mark(id: Id, ghost out: set<Id>)
      requires Structure(out) && id in entries && (entries[id].synctime != 0 || entries[id].marked)
      modifies `entries, `sync
      ensures Structure(out) && entries == old(entries)[id := Marked(old(entries)[id])]
      ensures !old(entries)[id].marked ==>
                forall x :: x in sync ==> x in entries && entries[id].synctime <= entries[x].synctime
    {
      if !entries[id].marked {
        sync := sync - {id};
        entries := entries[id := entries[id].(marked := true, synctime := 1)];
        sync := sync + {id};
      }
      BytesSame(old(entries), entries, lru);
    }

    /** Makes room by walking the LRU list from its old end, no further than it has to. */
    method Resize(reserve: nat, ghost out: set<Id>) returns (ghost k: nat)
      requires Structure(out)
      modifies `entries, `lru, `life, `sync, `size, `disk
      ensures Structure(out) && Trimmed(old(entries), old(lru), entries, lru, k) && disk == old(disk)
      ensures size + reserve < max + MarkedBytes(entries, lru) || k == |old(lru)|
      ensures forall j :: 0 <= j < k ==> max + ListBytes(old(entries), old(lru)[..j]) <= old(size) + reserve
      ensures SameOrder(old(lru), lru, {})
    {
      hide Linked, SyncExact, LifeExact, Trimmed, ListBytes, SameOrder;
      k := 0;
      TrimmedNone(entries, lru);
      NoBytes(entries, lru);
      OrderSelf(lru, {});
      var removed, i := 0, 0;
      while i < |lru|
        invariant Structure(out) && Trimmed(old(entries), old(lru), entries, lru, k) && disk == old(disk)
        invariant i <= |lru| && |lru| - i == |old(lru)| - k
        invariant removed == MarkedBytes(entries, lru[..i]) && SameOrder(old(lru), lru, {})
        invariant k <= |old(lru)| && old(size) - ListBytes(old(entries), old(lru)[..k]) == size - removed
        invariant forall j :: 0 <= j < k ==> max + ListBytes(old(entries), old(lru)[..j]) <= old(size) + reserve
        decreases |lru| - i
      {
        MarkedPrefix(entries, lru, i);
        if size + reserve < max + removed {
          break;
        }
        var raw := lru[i];
        NextVictim(old(entries), old(lru), out, entries, lru, k);
        NextBytes(old(entries), old(lru), k);
        if entries[raw].synctime != 0 || entries[raw].marked {
          TrimMark(old(entries), old(lru), out, entries, lru, k);
          MarkedGrows(entries, lru, out, i);
          Mark(raw, out);
          removed := removed + |entries[raw].data|;
          i := i + 1;
        } else {
          TrimErase(old(entries), old(lru), out, entries, lru, k);
          MarkedKeeps(entries, lru, out, i);
          ghost var was, list := entries, lru;
          ghost var j := EraseElement(raw, out);
          SamePlace(was, list, out, i, j);
          OrderThen(old(lru), list, lru, {}, {}, {});
        }
        k := k + 1;
      }
    }

    /** Room for `need` more bytes. */
    method MakeRoom(need: nat, reserve: nat, ghost out: set<Id>)
      requires Structure(out) && need <= reserve
      modifies `entries, `lru, `life, `sync, `size, `disk
      ensures Structure(out) && disk == old(disk) && Kept(old(entries), old(disk), entries, disk, {})
      ensures forall x :: x in entries ==> x in old(entries)
      ensures forall x :: x in out && x in old(entries) ==> x in entries && entries[x] == old(entries)[x]
      ensures Roomy(entries, lru, size, need, max)
      ensures SameOrder(old(lru), lru, {}) && (old(size) + need <= max ==> entries == old(entries) && lru == old(lru))
    {
      hide Kept, SameOrder;
      KeptSelf(entries, disk, {});
      OrderSelf(lru, {});
      if max < size + need {
        ghost var k := Resize(reserve, out);
        TrimmedKept(old(entries), old(lru), out, entries, lru, k, disk);
        if k == |old(lru)| { TrimmedAll(old(entries), old(lru), out, entries, lru); }
      }
    }

    /** The locked part of `sync_after_append`: the entry goes, its bytes are yet to be appended. */
    method TakeAppend(id: Id) returns (raw: Data)
      requires Structure({}) && id in entries && entries[id].onlyAppend
      modifies `entries, `lru, `life, `sync, `size, `disk
      ensures Structure({}) && entries == old(entries) - {id} && disk == old(disk) && raw == old(entries)[id].data
      ensures forall x :: Promised(Append(id, raw), entries, disk, x) == Value(old(entries), old(disk), x)
      ensures old(Valid()) ==> Valid()
      ensures SameOrder(old(lru), lru, {id})
    {
      hide Linked, SyncExact, LifeExact, ListBytes, RemoveAt, Promised, SameOrder;
      TakenPromised(entries, disk, id);
      Undirtied(entries, lru, sync, life, id);
      raw := entries[id].data;
      sync := sync - {id};
      entries := entries[id := entries[id].(synctime := 0)];
      ghost var i := EraseElement(id, {});
      OrderSelf(lru, {});
      OrderThen(old(lru), lru, lru, {}, {}, {id});
    }

    /**
     The write of `sync_after_append`, whatever happened to the cache since the bytes were taken.  Only the
     value of a key that is not cached whole changes, and the cache stays valid exactly when it has no clean
     entry for the key.
     */
    method AppendPending(id: Id, raw: Data)
      requires Structure({})
      modifies `disk
      ensures Structure({}) && disk == old(disk)[id := Get(Lookup(old(disk), id)) + raw]
      ensures forall x :: Value(entries, disk, x) == Value(entries, old(disk), x) <==>
                || x != id
                || (id in entries && !entries[id].onlyAppend)
                || (raw == [] && (id in entries || id in old(disk)))
      ensures old(Valid()) ==> (Valid() <==> raw == [] || id !in entries || entries[id].synctime != 0)
    {
      hide Linked, SyncExact, LifeExact, ListBytes;
      LateAppend(entries, disk, id, raw);
      disk := disk[id := Get(Lookup(disk, id)) + raw];
    }

    /** Both parts under the lock of the key: an append-only entry is written back by one append and dropped. */
    method SyncAfterAppend(id: Id)
      requires Structure({}) && id in entries && entries[id].onlyAppend
      modifies `entries, `lru, `life, `sync, `size, `disk
      ensures Structure({}) && entries == old(entries) - {id} && disk == Flushed(old(entries)[id], old(disk), id)
      ensures SameValues(old(entries), old(disk), entries, disk)
      ensures old(Valid()) ==> Valid()
      ensures SameOrder(old(lru), lru, {id})
    {
      hide Linked, SyncExact, LifeExact, AllSound, ListBytes, Promised, SameOrder;
      FlushDrop(entries, disk, id);
      var raw := TakeAppend(id);
      AppendPending(id, raw);
    }

    /** The locked part of writing back any other entry: it counts as clean, its copy is yet to be written. */
    method TakeCopy(id: Id) returns (copy: Data)
      requires Structure({}) && id in entries && entries[id].synctime != 0 && !entries[id].onlyAppend
      modifies `entries, `sync
      ensures Structure({}) && entries == old(entries)[id := old(entries)[id].(synctime := 0)]
      ensures copy == old(entries)[id].data && sync == old(sync) - {id}
      ensures forall x :: Promised(Copy(id, copy), entries, disk, x) == Value(old(entries), old(disk), x)
    {
      hide Linked, SyncExact, LifeExact, ListBytes;
      Undirtied(entries, lru, sync, life, id);
      copy := entries[id].data;
      sync := sync - {id};
      entries := entries[id := entries[id].(synctime := 0)];
    }

    /**
     The write of the copy, whatever happened to the cache since it was taken.  No value changes exactly when
     the key is cached with its whole value or the backend has the copy.
     */
    method WriteCopy(id: Id, copy: Data)
      requires Structure({})
      modifies `disk
      ensures Structure({}) && disk == old(disk)[id := copy]
      ensures old(AllSound(entries, disk, {id})) ==>
                && (SameValues(entries, old(disk), entries, disk) <==>
                      if id !in entries then Lookup(old(disk), id) == Some(copy)
                      else entries[id].onlyAppend ==> Get(Lookup(old(disk), id)) == copy)
                && (AllSound(entries, disk, {}) <==> (id in entries ==> Sound(entries[id], disk, id)))
    {
      hide Linked, SyncExact, LifeExact, ListBytes, AllSound, SameValues;
      if AllSound(entries, disk, {id}) { SnapshotWritten(entries, disk, id, copy); }
      SyncElement(id, Entry(copy, 0, 0, false, false, false));
    }

    /** An entry that is still marked once its copy was written is dropped; if it was sound, no value changes. */
    method DropMarked(id: Id)
      requires Structure({})
      modifies `entries, `lru, `life, `sync, `size, `disk
      ensures Structure({})
      ensures entries == if id in old(entries) && old(entries)[id].marked then old(entries) - {id} else old(entries)
      ensures disk == if id in old(entries) && old(entries)[id].marked && old(entries)[id].synctime != 0
                      then Flushed(old(entries)[id], old(disk), id) else old(disk)
      ensures old(id !in sync) ==> sync == old(sync)
      ensures old(SoundFor(Check(id), entries, disk)) ==>
                Valid() && SameValues(old(entries), old(disk), entries, disk)
    {
      hide Linked, LifeExact, ListBytes, RemoveAt, AllSound, SameValues, SoundFor;
      SameSelf(entries, disk);
      if SoundFor(Check(id), entries, disk) { Checked(entries, disk, id); }
      if id in entries && entries[id].marked {
        InList(entries, lru, id);
        ghost var i := EraseElement(id, {});
      }
    }

    /** Adds an entry with no lifetime and no sync time, making room first. */
    method CreateData(id: Id, data: Data, removeFromDisk: bool)
      requires Structure({}) && id !in entries
      modifies `entries, `lru, `life, `sync, `size, `disk
      ensures Structure({}) && disk == old(disk) && Kept(old(entries), old(disk), entries, disk, {id})
      ensures Latest(id) && entries[id] == Entry(data, 0, 0, removeFromDisk, false, false)
      ensures Fits(entries, lru, size, max, id)
      ensures old(AllSound(entries, disk, {id})) ==>
                AllSound(entries, disk, {id}) && SameValuesBut(old(entries), old(disk), entries, disk, id)
      ensures SameOrder(old(lru), lru, {id}) && (old(size) + |data| <= max ==> lru == old(lru) + [id])
      ensures old(size) + |data| <= max ==> entries == old(entries)[id := entries[id]]
    {
      hide Linked, SyncExact, LifeExact, AllSound, ListBytes, SameValuesBut, AllMarked, MarkedBytes, Fits, Kept,
           SameOrder;
      MakeRoom(|data|, |data|, {});
      ghost var e := Entry(data, 0, 0, removeFromDisk, false, false);
      Created(entries, lru, id, e);
      CreatedSets(entries, sync, life, id, e);
      ghost var e1 := entries;
      size := size + |data|;
      entries := entries[id := Entry(data, 0, 0, removeFromDisk, false, false)];
      PutBack(entries, lru, id, size - |data|, max);
      ghost var l1 := lru;
      lru := lru + [id];
      OrderPush(l1, id);
      OrderThen(old(lru), l1, lru, {}, {id}, {id});
      KeptPut(e1, disk, id, e);
      KeptThen(old(entries), disk, e1, disk, entries, disk, {}, {id}, {id});
      KeptValues(old(entries), disk, entries, disk, id);
    }

    /** Brings a key in from the backend, if it is there. */
    method PopulateFromDisk(id: Id, removeFromDisk: bool) returns (found: bool)
      requires Structure({}) && id !in entries
      modifies `entries, `lru, `life, `sync, `size, `disk
      ensures Structure({}) && disk == old(disk) && Kept(old(entries), old(disk), entries, disk, {id})
      ensures found <==> id in disk
      ensures if found then id in entries && entries[id] == Entry(disk[id], 0, 0, removeFromDisk, false, false)
              else entries == old(entries)
      ensures found ==> Latest(id) && Fits(entries, lru, size, max, id)
      ensures !found ==> lru == old(lru)
      ensures old(Valid()) ==> Valid() && SameValues(old(entries), old(disk), entries, disk)
      ensures SameOrder(old(lru), lru, {id})
    {
      hide Linked, SyncExact, LifeExact, AllSound, ListBytes, SameValuesBut, Kept, Fits, SameOrder;
      KeptSelf(entries, disk, {id});
      OrderSelf(lru, {id});
      found := id in disk;
      if found {
        if old(Valid()) { Weaken(entries, disk, id); }
        CreateData(id, disk[id], removeFromDisk);
        if old(Valid()) { Populated(old(entries), disk, entries, id); }
      }
    }

    /** Takes an entry out of the LRU list and makes room for its new size. */
    method TakeOut(id: Id, need: nat)
      requires Structure({}) && id in entries
      modifies `entries, `lru, `life, `sync, `size, `disk
      ensures Structure({id}) && disk == old(disk) && Kept(old(entries), old(disk), entries, disk, {})
      ensures id in entries && entries[id] == old(entries)[id]
      ensures Roomy(entries, lru, size, need, max)
      ensures SameOrder(old(lru), lru, {id})
    {
      hide SyncExact, LifeExact, ListBytes, RemoveAt, Roomy, Kept, SameOrder;
      assert id in lru;
      var i :| 0 <= i < |lru| && lru[i] == id;
      TakenFrom(entries, lru, i);
      size := size - |entries[id].data|;
      OnceListed(entries, lru, {}, i);
      OrderErase(lru, i);
      lru := RemoveAt(lru, i);
      ghost var l1 := lru;
      MakeRoom(need, need * 2, {id});
      OrderThen(old(lru), l1, lru, {}, {}, {id});
    }

    /** Puts an entry back at the end of the LRU list with its new contents. */
    method Relink(id: Id, e: Entry)
      requires Linked(entries, lru, {id}) && size == ListBytes(entries, lru) && id in entries
      requires Roomy(entries, lru, size, |e.data|, max)
      modifies `entries, `lru, `size
      ensures Linked(entries, lru, {}) && size == ListBytes(entries, lru)
      ensures entries == old(entries)[id := e] && Latest(id) && Fits(entries, lru, size, max, id)
      ensures SameOrder(old(lru), lru, {id})
    {
      hide Linked, ListBytes, AllMarked, Fits, SameOrder;
      Replaced(entries, lru, {id}, id, e);
      PutBack(entries[id := e], lru, id, size, max);
      OrderPush(lru, id);
      lru := lru + [id];
      size := size + |e.data|;
      entries := entries[id := e];
    }

    /** An append-only entry for the key, created empty if there is none. */
    method EnsureAppendOnly(id: Id, now: nat)
      requires Structure({}) && now > 0 && (id in entries ==> entries[id].onlyAppend)
      modifies `entries, `lru, `life, `sync, `size, `disk
      ensures Structure({}) && disk == old(disk) && Kept(old(entries), old(disk), entries, disk, {id})
      ensures id in entries
      ensures entries[id] == if id in old(entries) then old(entries)[id]
                             else Entry([], 0, now + syncTimeout, false, false, true)
      ensures SameOrder(old(lru), lru, {id})
    {
      hide Linked, SyncExact, LifeExact, ListBytes, Fits, Kept, SameOrder;
      KeptSelf(entries, disk, {id});
      OrderSelf(lru, {id});
      if id !in entries {
        CreateData(id, [], false);
        ghost var was := entries;
        AppendOnly(entries, lru, sync, life, id, entries[id].(onlyAppend := true, synctime := now + syncTimeout));
        entries := entries[id := entries[id].(onlyAppend := true, synctime := now + syncTimeout)];
        sync := sync + {id};
        KeptPut(was, disk, id, entries[id]);
        KeptThen(old(entries), disk, was, disk, entries, disk, {id}, {id}, {id});
      }
    }

    /** An append that finds nothing cached, or only earlier appends. */
    method WriteAppendOnly(id: Id, data: Data, now: nat)
      requires Structure({}) && now > 0 && (id in entries ==> entries[id].onlyAppend)
      modifies `entries, `lru, `life, `sync, `size, `disk
      ensures Structure({}) && disk == old(disk) && Kept(old(entries), old(disk), entries, disk, {id})
      ensures Latest(id) && entries[id].onlyAppend && Fits(entries, lru, size, max, id)
      ensures SlotOf(entries, disk, id) == WriteSlot(SlotOf(old(entries), old(disk), id), 0, data, true)
      ensures Value(entries, disk, id) == Some(Get(Value(old(entries), old(disk), id)) + data)
      ensures id in old(entries) ==> entries[id].lifetime == old(entries)[id].lifetime
      ensures id !in old(entries) || AppendShape(old(entries)[id]) ==> AppendShape(entries[id])
      ensures old(Valid()) ==> Valid() && SameValuesBut(old(entries), old(disk), entries, disk, id)
      ensures SameOrder(old(lru), lru, {id})
      ensures entries[id].synctime == if id in old(entries) then old(entries)[id].synctime else now + syncTimeout
    {
      hide Linked, SyncExact, LifeExact, ListBytes, AllSound, SameValuesBut, Roomy, Fits, Kept, SameOrder;
      EnsureAppendOnly(id, now);
      ghost var e1, l1 := entries, lru;
      var raw := entries[id].data;
      TakeOut(id, |raw| + |data|);
      ghost var e2, l2 := entries, lru;
      var e := entries[id].(data := raw + data);
      OneDirty(entries, sync, life, id, e);
      Relink(id, e);
      OrderThen(old(lru), l1, l2, {id}, {id}, {id});
      OrderThen(old(lru), l2, lru, {id}, {id}, {id});
      KeptThen(old(entries), disk, e1, disk, e2, disk, {id}, {}, {id});
      KeptPut(e2, disk, id, e);
      KeptThen(old(entries), disk, e2, disk, entries, disk, {id}, {id}, {id});
      Regroup(Get(Lookup(disk, id)), raw, data);
      assert [] + data == data && Get(Lookup(disk, id)) + [] == Get(Lookup(disk, id));
      if old(Valid()) { SoundAt(old(entries), old(disk), id); }
      KeptSound(old(entries), disk, entries, disk, id);
    }

    /** Any other write to an append-only entry: write it back, write through, and read the result in again. */
    method WriteThrough(id: Id, offset: nat, data: Data)
      requires Structure({}) && id in entries && entries[id].onlyAppend
      modifies `entries, `lru, `life, `sync, `size, `disk
      ensures Structure({}) && Kept(old(entries), old(disk), entries, disk, {id})
      ensures SlotOf(entries, disk, id) == WriteSlot(SlotOf(old(entries), old(disk), id), offset, data, false)
      ensures Value(entries, disk, id) == Some(Overwritten(Value(old(entries), old(disk), id), offset, data))
      ensures Latest(id) && Fits(entries, lru, size, max, id)
      ensures entries[id].synctime == 0 && !entries[id].onlyAppend && !entries[id].marked
      ensures old(Valid()) ==> Valid() && SameValuesBut(old(entries), old(disk), entries, disk, id)
      ensures SameOrder(old(lru), lru, {id})
    {
      hide Linked, SyncExact, LifeExact, ListBytes, AllSound, SameValues, SameValuesBut, Fits, Overwritten, Kept,
           SameOrder;
      SyncAfterAppend(id);
      ghost var e1, d1, l1 := entries, disk, lru;
      KeptChange(old(entries), old(disk), e1, d1, id);
      disk := disk[id := Overwritten(Lookup(disk, id), offset, data)];
      ghost var d2 := disk;
      KeptChange(e1, d1, e1, d2, id);
      KeptThen(old(entries), old(disk), e1, d1, e1, d2, {id}, {id}, {id});
      var found := PopulateFromDisk(id, false);
      OrderThen(old(lru), l1, lru, {id}, {id}, {id});
      KeptThen(old(entries), old(disk), e1, d2, entries, disk, {id}, {id}, {id});
      KeptSound(old(entries), old(disk), entries, disk, id);
    }

    /** A buffer for the key that agrees with its value as far as the write needs. */
    method EnsureEntry(id: Id, offset: nat, append: bool, removeFromDisk: bool)
      requires Structure({}) && (id in entries ==> !entries[id].onlyAppend) && (id !in entries ==> !append)
      modifies `entries, `lru, `life, `sync, `size, `disk
      ensures Structure({}) && disk == old(disk) && Kept(old(entries), old(disk), entries, disk, {id})
      ensures id in entries && !entries[id].onlyAppend
      ensures entries[id].lifetime == if id in old(entries) then old(entries)[id].lifetime else 0
      ensures entries[id].synctime == if id in old(entries) then old(entries)[id].synctime else 0
      ensures entries[id].removeFromDisk ==
              if id in old(entries) then old(entries)[id].removeFromDisk else removeFromDisk
      ensures Get(Value(old(entries), old(disk), id)) == entries[id].data || (offset == 0 && !append)
      ensures SameOrder(old(lru), lru, {id})
    {
      hide Linked, SyncExact, LifeExact, ListBytes, Fits, Kept, SameOrder;
      KeptSelf(entries, disk, {id});
      OrderSelf(lru, {id});
      if id !in entries {
        var found := false;
        if offset != 0 {
          found := PopulateFromDisk(id, removeFromDisk);
        }
        if !found {
          CreateData(id, [], removeFromDisk);
        }
      }
    }

    /** A write into a buffered entry. */
    method WriteCached(id: Id, offset: nat, data: Data, lifetime: nat, append: bool, removeFromDisk: bool, now: nat)
      requires Structure({}) && now > 0
      requires (id in entries ==> !entries[id].onlyAppend) && (id !in entries ==> !append)
      modifies `entries, `lru, `life, `sync, `size, `disk
      ensures Linked(entries, lru, {}) && SyncExact(entries, sync) && size == ListBytes(entries, lru)
      ensures LifeExact(entries, life) <==>
              !(id in old(entries) && old(entries)[id].lifetime != 0 && lifetime == 0)
      ensures disk == old(disk) && Kept(old(entries), old(disk), entries, disk, {id})
      ensures Value(entries, disk, id) == Some(Written(Value(old(entries), old(disk), id), offset, data, append))
      ensures Latest(id) && !entries[id].marked && !entries[id].onlyAppend && Fits(entries, lru, size, max, id)
      ensures entries[id].synctime ==
              if id in old(entries) && old(entries)[id].synctime != 0 then old(entries)[id].synctime
              else now + syncTimeout
      ensures entries[id].removeFromDisk ==
              if id in old(entries) then old(entries)[id].removeFromDisk else removeFromDisk
      ensures entries[id].lifetime == LifetimeAfter(old(entries), id, lifetime, now) && (id in life <==> lifetime != 0)
      ensures old(Valid()) ==>
                AllSound(entries, disk, {}) && SameValuesBut(old(entries), old(disk), entries, disk, id)
      ensures SameOrder(old(lru), lru, {id})
    {
      hide Linked, SyncExact, LifeExact, ListBytes, AllSound, SameValuesBut, Roomy, Fits, Kept, Overwritten, Resized,
           SameOrder;
      EnsureEntry(id, offset, append, removeFromDisk);
      ghost var e1, l1 := entries, lru;
      var raw := entries[id].data;
      var newSize := if append then |raw| + |data| else offset + |data|;
      TakeOut(id, newSize);
      ghost var e2, l2, sync2, life2 := entries, lru, sync, life;
      var e := entries[id].(marked := false);
      if append {
        e := e.(data := raw + data);
      } else {
        CopiedIn(raw, offset, data);
        e := e.(data := Resized(raw, newSize)[..offset] + data);
      }
      WrittenFrom(Value(old(entries), old(disk), id), raw, offset, data, append);
      if e.synctime == 0 {
        e := e.(synctime := now + syncTimeout);
        sync := sync + {id};
      }
      if e.lifetime != 0 {
        life := life - {id};
      }
      if lifetime != 0 {
        e := e.(lifetime := lifetime + now);
        life := life + {id};
      }
      SyncAfter(entries, sync2, id, e);
      LifeAfter(entries, life2, id, e, lifetime, life);
      Relink(id, e);
      OrderThen(old(lru), l1, l2, {id}, {id}, {id});
      OrderThen(old(lru), l2, lru, {id}, {id}, {id});
      KeptThen(old(entries), disk, e1, disk, e2, disk, {id}, {}, {id});
      KeptPut(e2, disk, id, e);
      KeptThen(old(entries), disk, e2, disk, entries, disk, {id}, {id}, {id});
      KeptSound(old(entries), disk, entries, disk, id);
    }

    /**
     `cache_t::write` without CACHE_ONLY and COMPARE_AND_SWAP: on the plain store it is one write or
     append.  The lifetime set stays exact unless an entry with a lifetime is rewritten without one.
     */
    method Write(id: Id, offset: nat, data: Data, lifetime: nat, cache: bool, append: bool, removeFromDisk: bool,
                 now: nat)
      returns (handled: bool)
      requires Structure({}) && now > 0 && (id in entries ==> AppendShape(entries[id]))
      modifies `entries, `lru, `life, `sync, `size, `disk
      ensures handled <==> id in old(entries) || cache
      ensures !handled ==> entries == old(entries) && disk == old(disk) && Structure({})
      ensures Linked(entries, lru, {}) && SyncExact(entries, sync) && size == ListBytes(entries, lru)
      ensures LifeExact(entries, life) <==>
              !(id in old(entries) && old(entries)[id].lifetime != 0 && lifetime == 0)
      ensures Kept(old(entries), old(disk), entries, disk, {id})
      ensures handled ==>
                SlotOf(entries, disk, id) == WriteSlot(SlotOf(old(entries), old(disk), id), offset, data, append)
      ensures handled ==> AppendShape(entries[id]) && (entries[id].synctime == 0 ==> !entries[id].marked)
      ensures handled ==>
                Value(entries, disk, id) == Some(Written(Value(old(entries), old(disk), id), offset, data, append))
      ensures handled ==> Latest(id) && Fits(entries, lru, size, max, id)
      ensures handled ==>
                (entries[id].onlyAppend <==> append && (id !in old(entries) || old(entries)[id].onlyAppend))
      ensures handled && !(id in old(entries) && old(entries)[id].onlyAppend && !append) ==> disk == old(disk)
      ensures handled && !entries[id].onlyAppend && !(id in old(entries) && old(entries)[id].onlyAppend) ==>
                && entries[id].lifetime == LifetimeAfter(old(entries), id, lifetime, now)
                && (id in life <==> lifetime != 0)
                && entries[id].removeFromDisk ==
                   if id in old(entries) then old(entries)[id].removeFromDisk else removeFromDisk
      ensures old(Valid()) ==>
                AllSound(entries, disk, {}) && SameValuesBut(old(entries), old(disk), entries, disk, id)
      ensures SameOrder(old(lru), lru, {id})
    {
      hide Linked, SyncExact, LifeExact, ListBytes, SameValues, SameValuesBut, Fits, Kept, Overwritten, SameOrder;
      ButSelf(entries, disk, id);
      KeptSelf(entries, disk, {id});
      OrderSelf(lru, {id});
      handled := true;
      if id !in entries && !cache {
        return false;
      }
      if append && (id !in entries || entries[id].onlyAppend) {
        WriteAppendOnly(id, data, now);
      } else if id in entries && entries[id].onlyAppend {
        WriteThrough(id, offset, data);
      } else {
        WriteCached(id, offset, data, lifetime, append, removeFromDisk, now);
      }
    }

    /** Moves an entry to the end of the LRU list and spares it from eviction. */
    method Touch(id: Id)
      requires Structure({}) && id in entries
      modifies `entries, `lru
      ensures Structure({}) && SameValues(old(entries), disk, entries, disk)
      ensures entries == old(entries)[id := old(entries)[id].(marked := false)]
      ensures Latest(id)
      ensures old(Valid()) ==> Valid()
      ensures SameOrder(old(lru), lru, {id})
    {
      hide SyncExact, LifeExact, ListBytes, RemoveAt, AllMarked, SameOrder;
      assert id in lru;
      var i :| 0 <= i < |lru| && lru[i] == id;
      TakenFrom(entries, lru, i);
      OnceListed(entries, lru, {}, i);
      OrderErase(lru, i);
      lru := RemoveAt(lru, i);
      OrderPush(lru, id);
      OrderThen(old(lru), lru, lru + [id], {}, {id}, {id});
      ghost var e := entries[id].(marked := false);
      Replaced(entries, lru, {id}, id, e);
      OneDirty(entries, sync, life, id, e);
      entries := entries[id := entries[id].(marked := false)];
      LinkedBack(entries, lru, {id}, id);
      BytesConcat(entries, lru, [id]);
      OneByte(entries, id);
      assert {id} - {id} == {};
      lru := lru + [id];
    }

    /**
     `cache_t::read`: the buffered value, or nothing; nothing means that the key is not cached and the
     backend has its value.
     */
    method Read(id: Id, cache: bool, cacheOnly: bool) returns (r: Option<Data>)
      requires Structure({})
      modifies `entries, `lru, `life, `sync, `size, `disk
      ensures Structure({}) && Kept(old(entries), old(disk), entries, disk, {id})
      ensures SlotOf(entries, disk, id) == ReadSlot(SlotOf(old(entries), old(disk), id), cache && !cacheOnly)
      ensures id in entries ==> !entries[id].onlyAppend && !entries[id].marked
      ensures r.Some? ==> r == Value(old(entries), old(disk), id)
      ensures r.None? ==> id !in entries && Lookup(disk, id) == Value(old(entries), old(disk), id)
      ensures r.Some? ==> Latest(id) && !entries[id].marked && !entries[id].onlyAppend && r == Some(entries[id].data)
      ensures r.Some? && (id !in old(entries) || old(entries)[id].onlyAppend) ==> entries[id].synctime == 0
      ensures !(id in old(entries) && old(entries)[id].onlyAppend) ==> disk == old(disk)
      ensures r.Some? <==> || (id in old(entries) && !old(entries)[id].onlyAppend)
                           || (cache && !cacheOnly && Value(old(entries), old(disk), id).Some?)
      ensures old(Valid()) ==> Valid() && SameValues(old(entries), old(disk), entries, disk)
      ensures SameOrder(old(lru), lru, {id})
    {
      hide Linked, SyncExact, LifeExact, AllSound, ListBytes, Fits, Kept, SameValues, SameOrder;
      SameSelf(entries, disk);
      KeptSelf(entries, disk, {id});
      OrderSelf(lru, {id});
      if id in entries && entries[id].onlyAppend {
        SyncAfterAppend(id);
        KeptChange(old(entries), old(disk), entries, disk, id);
      }
      ghost var e1, d1, l1 := entries, disk, lru;
      if id !in entries && cache && !cacheOnly {
        var found := PopulateFromDisk(id, false);
        KeptThen(old(entries), old(disk), e1, d1, entries, disk, {id}, {id}, {id});
        OrderThen(old(lru), l1, lru, {id}, {id}, {id});
        if old(Valid()) { SameThenSame(old(entries), old(disk), e1, d1, entries, disk); }
      }
      r := None;
      if id in entries {
        ghost var e2, d2, l2 := entries, disk, lru;
        Touch(id);
        OrderThen(old(lru), l2, lru, {id}, {id}, {id});
        KeptPut(e2, d2, id, entries[id]);
        KeptThen(old(entries), old(disk), e2, d2, entries, disk, {id}, {id}, {id});
        if old(Valid()) { SameThenSame(old(entries), old(disk), e2, d2, entries, disk); }
        r := Some(entries[id].data);
      }
    }

    /** `cache_t::remove`: the key is gone, unless only its cached copy was to go. */
    method Remove(id: Id, cacheOnly: bool) returns (ok: bool)
      requires Structure({})
      modifies `entries, `lru, `life, `sync, `size, `disk
      ensures Structure({}) && id !in entries && Kept(old(entries), old(disk), entries, disk, {id})
      ensures !cacheOnly || (id in old(entries) && old(entries)[id].removeFromDisk) ==> id !in disk
      ensures ok <==> id in old(entries) || (!cacheOnly && id in old(disk))
      ensures old(Valid()) ==>
                && Valid() && SameValuesBut(old(entries), old(disk), entries, disk, id)
                && Value(entries, disk, id) ==
                   if !cacheOnly || (id in old(entries) && old(entries)[id].removeFromDisk) then None
                   else Value(old(entries), old(disk), id)
      ensures SameOrder(old(lru), lru, {id})
    {
      hide Linked, SyncExact, LifeExact, ListBytes, RemoveAt, Kept, SameValuesBut, SameOrder;
      var removeFromDisk := !cacheOnly;
      OrderSelf(lru, {id});
      ok := false;
      if id in entries {
        removeFromDisk := removeFromDisk || entries[id].removeFromDisk;
        InList(entries, lru, id);
        if entries[id].synctime != 0 && !cacheOnly {
          Undirtied(entries, lru, sync, life, id);
          sync := sync - {id};
          entries := entries[id := entries[id].(synctime := 0)];
        }
        ghost var i := EraseElement(id, {});
        OrderThen(old(lru), old(lru), lru, {id}, {}, {id});
        ok := true;
      }
      if removeFromDisk {
        ok := ok || id in disk;
        disk := disk - {id};
      }
      KeptChange(old(entries), old(disk), entries, disk, id);
      KeptSound(old(entries), old(disk), entries, disk, id);
      if old(Valid()) { SoundAt(old(entries), old(disk), id); }
    }

    /** `begin()` of a set ordered by time. */
    method Earliest(s: set<Id>, time: map<Id, nat>) returns (id: Id)
      requires s != {} && time.Keys == s
      ensures id in s && forall y :: y in s ==> time[id] <= time[y]
    {
      FirstExists(s, time);
      id :| First(s, time, id);
    }

    /** Erasing an entry of a valid cache changes no value. */
    method EraseSound(id: Id)
      requires Valid() && id in entries
      modifies `entries, `lru, `life, `sync, `size, `disk
      ensures Valid() && SameValues(old(entries), old(disk), entries, disk)
      ensures entries == old(entries) - {id} && |entries| < |old(entries)|
    {
      hide Linked, SyncExact, LifeExact, ListBytes, RemoveAt;
      InList(entries, lru, id);
      ghost var i := EraseElement(id, {});
      FlushDrop(old(entries), old(disk), id);
      SoundElsewhere(old(entries), old(disk), disk, {}, id);
      assert entries.Keys == old(entries).Keys - {id};
    }

    /** One locked round of the expiry loop: the entry that expires first is dropped, if its time has come. */
    method ExpireRound(now: nat) returns (r: Option<Id>)
      requires Valid()
      modifies `entries, `lru, `life, `sync, `size, `disk
      ensures Valid() && SameValues(old(entries), old(disk), entries, disk)
      ensures r.None? ==> entries == old(entries) && forall x :: x in entries ==> !Expired(entries[x], now)
      ensures r.Some? <==>
                exists x :: x in old(entries) && old(entries)[x].lifetime != 0 && old(entries)[x].lifetime <= now
      ensures r.Some? ==> r.value in old(entries) && Expired(old(entries)[r.value], now)
                          && entries == old(entries) - {r.value} && |entries| < |old(entries)|
      ensures r.Some? ==> forall x :: x in old(entries) && old(entries)[x].lifetime != 0 ==>
                            old(entries)[r.value].lifetime <= old(entries)[x].lifetime
    {
      hide Linked, SyncExact, ListBytes, AllSound, RemoveAt;
      r := None;
      if life != {} {
        var id := Earliest(life, map x | x in life :: entries[x].lifetime);
        if entries[id].lifetime <= now {
          EraseSound(id);
          r := Some(id);
        }
      }
    }

    /** Drops the expired entries, writing back the dirty ones, and lists those to be removed from the backend. */
    method Expire(now: nat) returns (remove: seq<Id>)
      requires Valid()
      modifies `entries, `lru, `life, `sync, `size, `disk
      ensures Valid() && SameValues(old(entries), old(disk), entries, disk)
      ensures forall x :: x in entries <==> x in old(entries) && !Expired(old(entries)[x], now)
      ensures forall x :: x in entries ==> entries[x] == old(entries)[x]
      ensures forall x :: x in remove <==>
                x in old(entries) && Expired(old(entries)[x], now) && old(entries)[x].removeFromDisk
    {
      hide Linked, SyncExact, ListBytes, AllSound, LifeExact;
      remove := [];
      while true
        invariant Valid() && SameValues(old(entries), old(disk), entries, disk)
        invariant forall x :: x in entries ==> x in old(entries) && entries[x] == old(entries)[x]
        invariant forall x :: x in old(entries) && x !in entries ==> Expired(old(entries)[x], now)
        invariant forall x :: x in remove <==> x in old(entries) && x !in entries && old(entries)[x].removeFromDisk
        decreases |entries|
      {
        var before := entries;
        var r := ExpireRound(now);
        if r.None? {
          break;
        }
        if before[r.value].removeFromDisk {
          remove := remove + [r.value];
        }
      }
    }

    /** The locked half of writing a dirty entry back. */
    method TakeDirty(id: Id) returns (p: Pending)
      requires Structure({}) && id in entries && entries[id].synctime != 0
      modifies `entries, `lru, `life, `sync, `size, `disk
      ensures Structure({}) && disk == old(disk) && sync == old(sync) - {id} && id in old(sync)
      ensures Sends(p) && p.id == id && p.raw == old(entries)[id].data && (p.Append? <==> old(entries)[id].onlyAppend)
      ensures entries == if p.Append? then old(entries) - {id} else old(entries)[id := old(entries)[id].(synctime := 0)]
      ensures forall x :: Promised(p, entries, disk, x) == Value(old(entries), old(disk), x)
    {
      hide Linked, LifeExact, ListBytes, Promised;
      if entries[id].onlyAppend {
        var raw := TakeAppend(id);
        p := Append(id, raw);
      } else {
        var copy := TakeCopy(id);
        p := Copy(id, copy);
      }
    }

    /** What is left to do after it, one step at any later time. */
    method Arrive(p: Pending) returns (p': Pending)
      requires Structure({})
      modifies `entries, `lru, `life, `sync, `size, `disk
      ensures Structure({}) && p' == if p.Copy? then Check(p.id) else Nothing
      ensures Sends(p) ==> entries == old(entries) && disk == ArrivedDisk(p, old(disk)) && sync == old(sync)
      ensures p.Nothing? ==> entries == old(entries) && disk == old(disk) && sync == old(sync)
      ensures p.Check? ==>
                && entries == (if p.id in old(entries) && old(entries)[p.id].marked then old(entries) - {p.id}
                               else old(entries))
                && disk == (if p.id in old(entries) && old(entries)[p.id].marked && old(entries)[p.id].synctime != 0
                            then Flushed(old(entries)[p.id], old(disk), p.id) else old(disk))
                && (old(p.id !in sync) ==> sync == old(sync))
                && (old(SoundFor(p, entries, disk)) ==>
                      Valid() && SameValues(old(entries), old(disk), entries, disk))
    {
      hide Linked, SyncExact, LifeExact, ListBytes, SameValues, AllSound, SoundFor;
      p' := Nothing;
      match p
      case Nothing =>
      case Append(id, raw) => AppendPending(id, raw);
      case Copy(id, copy) =>
        WriteCopy(id, copy);
        p' := Check(id);
      case Check(id) => DropMarked(id);
    }

    /** Writes one due entry back, with nothing between the halves; an append-only or marked entry is then dropped. */
    method SyncOne(id: Id)
      requires Valid() && id in entries && entries[id].synctime != 0
      modifies `entries, `lru, `life, `sync, `size, `disk
      ensures Valid() && SameValues(old(entries), old(disk), entries, disk)
      ensures disk == Flushed(old(entries)[id], old(disk), id)
      ensures entries == WrittenBack(old(entries), id)
      ensures sync == old(sync) - {id} && id in old(sync)
    {
      hide Linked, LifeExact, ListBytes, AllSound, Promised;
      SyncedBack(entries, disk, id);
      var p := TakeDirty(id);
      p := Arrive(p);
      p := Arrive(p);
      assert entries == WrittenBack(old(entries), id);
      assert disk == Flushed(old(entries)[id], old(disk), id);
    }

    /** The first entry of the sync set, if its time has come. */
    method NextDue(now: nat) returns (r: Option<Id>)
      requires Structure({})
      ensures r.Some? ==> r.value in entries && Due(entries[r.value], now)
      ensures r.Some? ==> forall x :: x in entries && entries[x].synctime != 0 ==>
                            entries[r.value].synctime <= entries[x].synctime
      ensures r.None? ==> forall x :: x in entries ==> !Due(entries[x], now)
      ensures r.Some? <==> exists x :: x in entries && entries[x].synctime != 0 && entries[x].synctime <= now
    {
      hide Linked, LifeExact, ListBytes;
      r := None;
      if sync != {} {
        var id := Earliest(sync, map x | x in sync :: entries[x].synctime);
        if entries[id].synctime <= now {
          r := Some(id);
        }
      }
    }

    /** The locked half of one round of the sync loop. */
    method TakeDue(now: nat) returns (p: Pending)
      requires Structure({})
      modifies `entries, `lru, `life, `sync, `size, `disk
      ensures Structure({}) && disk == old(disk)
      ensures p.Nothing? ==> entries == old(entries) && forall x :: x in entries ==> !Due(entries[x], now)
      ensures p.Nothing? || Sends(p)
      ensures Sends(p) ==> forall x :: x in old(entries) && old(entries)[x].synctime != 0 && p.id in old(entries) ==>
                             old(entries)[p.id].synctime <= old(entries)[x].synctime
      ensures Sends(p) ==>
                && p.id in old(entries) && Due(old(entries)[p.id], now)
                && p.raw == old(entries)[p.id].data && (p.Append? <==> old(entries)[p.id].onlyAppend)
                && entries == if p.Append? then old(entries) - {p.id}
                              else old(entries)[p.id := old(entries)[p.id].(synctime := 0)]
      ensures forall x :: Promised(p, entries, disk, x) == Value(old(entries), old(disk), x)
    {
      hide Linked, LifeExact, SyncExact, ListBytes;
      p := Nothing;
      var r := NextDue(now);
      if r.Some? {
        p := TakeDirty(r.value);
      }
    }

    /** One round of the sync loop with nothing in between: the entry due first is written back. */
    method SyncRound(now: nat) returns (r: Option<Id>)
      requires Valid()
      modifies `entries, `lru, `life, `sync, `size, `disk
      ensures Valid() && SameValues(old(entries), old(disk), entries, disk)
      ensures r.None? ==> entries == old(entries) && disk == old(disk) && sync == old(sync)
                          && forall x :: x in entries ==> !Due(entries[x], now)
      ensures r.Some? ==> r.value in old(entries) && Due(old(entries)[r.value], now)
                          && entries == WrittenBack(old(entries), r.value)
                          && disk == Flushed(old(entries)[r.value], old(disk), r.value)
                          && r.value in old(sync) && sync == old(sync) - {r.value}
    {
      hide Linked, LifeExact, SyncExact, ListBytes, AllSound, WrittenBack, Flushed;
      SameSelf(entries, disk);
      r := NextDue(now);
      if r.Some? {
        SyncOne(r.value);
      }
    }

    /** Writes back every entry whose sync time has come. */
    method SyncDue(now: nat)
      requires Valid()
      modifies `entries, `lru, `life, `sync, `size, `disk
      ensures Valid() && SameValues(old(entries), old(disk), entries, disk)
      ensures SyncedSome(old(entries), old(disk), entries, disk, now)
      ensures forall x :: x in entries ==> !Due(entries[x], now)
    {
      hide Linked, LifeExact, ListBytes, AllSound, SyncedSome, SameValues;
      SameSelf(entries, disk);
      SyncedNone(entries, disk, now);
      while true
        invariant Valid() && SameValues(old(entries), old(disk), entries, disk)
        invariant SyncedSome(old(entries), old(disk), entries, disk, now)
        decreases sync
      {
        ghost var e1, d1 := entries, disk;
        var r := SyncRound(now);
        if r.None? {
          break;
        }
        SyncedStep(old(entries), old(disk), e1, d1, now, r.value);
        SameThenSame(old(entries), old(disk), e1, d1, entries, disk);
      }
    }

    /**
     Removes the listed keys from the backend, whatever happened to them since they were listed.  The cache
     stays valid exactly when none of them has a clean entry, and the value of a listed key stays exactly
     when the backend did not contribute to it.
     */
    method RemoveLocal(remove: seq<Id>)
      requires Valid()
      modifies `disk
      ensures forall x :: Lookup(disk, x) == if x in remove then None else Lookup(old(disk), x)
      ensures Valid() <==> forall x :: x in remove && x in entries ==> entries[x].synctime != 0
      ensures forall x :: Value(entries, disk, x) == Value(entries, old(disk), x) <==>
                || x !in remove
                || (x !in entries && x !in old(disk))
                || (x in entries && (!entries[x].onlyAppend || Get(Lookup(old(disk), x)) == []))
      ensures forall x :: x in remove && x !in entries ==> Value(entries, disk, x) == None
    {
      hide Linked, LifeExact, SyncExact, ListBytes, AllSound, Value;
      var i := 0;
      while i < |remove|
        invariant i <= |remove|
        invariant forall x :: Lookup(disk, x) == if x in remove[..i] then None else Lookup(old(disk), x)
      {
        assert remove[..i + 1] == remove[..i] + [remove[i]];
        disk := disk - {remove[i]};
        i := i + 1;
      }
      assert remove[..i] == remove;
      RemovedKeys(entries, old(disk), disk, remove);
    }

    /**
     One pass of the background thread that no client interrupts: only expiry of entries marked
     remove-from-disk changes a value.
     */
    method LifeCheck(now: nat)
      requires Valid()
      modifies `entries, `lru, `life, `sync, `size, `disk
      ensures Valid()
      ensures forall x :: x in entries ==> !Expired(entries[x], now) && !Due(entries[x], now)
      ensures forall x :: Value(entries, disk, x) ==
                if x in old(entries) && Expired(old(entries)[x], now) && old(entries)[x].removeFromDisk then None
                else Value(old(entries), old(disk), x)
    {
      hide Linked, SyncExact, LifeExact, ListBytes, AllSound;
      var remove := Expire(now);
      SyncDue(now);
      RemoveLocal(remove);
    }

    /**
     The destructor: every value ends up on the backend and nothing stays cached.  Once the sync set is
     empty so is the lifetime set, and its loop has nothing to do.
     */
    method Close()
      requires Valid()
      modifies this
      ensures Valid() && entries == map[] && lru == [] && life == {} && sync == {} && size == 0
      ensures forall x :: Lookup(disk, x) == Value(old(entries), old(disk), x)
    {
      hide Linked, LifeExact, ListBytes, MarkedBytes;
      max := 0;
      ghost var k := Resize(0, {});
      MarkedAtMost(entries, lru);
      TrimmedValues(old(entries), old(lru), {}, entries, lru, k, disk);
      TrimmedAll(old(entries), old(lru), {}, entries, lru);
      MarkedDirty(entries, lru, disk);
      while sync != {}
        invariant Valid() && SameValues(old(entries), old(disk), entries, disk)
        invariant forall x :: x in entries ==> entries[x].synctime != 0
        decreases |entries|
      {
        var id :| id in sync;
        EraseSound(id);
      }
      assert entries == map[];
      EmptyCache(entries, lru, life, disk);
    }
  }
}
