/**
 The write-back cache as data: the entries of the id set, the LRU list, the
 lifetime and sync sets, and the backend below it.  `Value` is the plain store
 that cache and backend together stand for.
 */
module CacheState {
  import opened Basics

  type Id = nat
  type Data = seq<Byte>

  /** `synctime` is zero exactly for clean entries, `lifetime` for entries that do not expire. */
  datatype Entry = Entry(data: Data, lifetime: nat, synctime: nat,
                         removeFromDisk: bool, marked: bool, onlyAppend: bool)

  type Entries = map<Id, Entry>
  type Disk = map<Id, Data>

  // --------------------------------------------------------------------------
  // The plain store
  // --------------------------------------------------------------------------

  function Get(v: Option<Data>): Data {
    match v case None => [] case Some(d) => d
  }

  function Lookup(disk: Disk, id: Id): Option<Data> {
    if id in disk then Some(disk[id]) else None
  }

  /** A write at an offset: keep or zero-fill what is before, truncate what is after. */
  function Overwritten(v: Option<Data>, offset: nat, data: Data): Data {
    seq(offset + |data|,
        i requires 0 <= i < offset + |data| =>
          if i >= offset then data[i - offset] else if i < |Get(v)| then Get(v)[i] else 0)
  }

  /** The value of a key: what a plain store without any cache would hold. */
  function Value(entries: Entries, disk: Disk, id: Id): Option<Data> {
    if id !in entries then Lookup(disk, id)
    else if entries[id].onlyAppend then Some(Get(Lookup(disk, id)) + entries[id].data)
    else Some(entries[id].data)
  }

  ghost predicate SameValues(entries: Entries, disk: Disk, entries': Entries, disk': Disk) {
    forall x :: Value(entries', disk', x) == Value(entries, disk, x)
  }

  ghost predicate SameValuesBut(entries: Entries, disk: Disk, entries': Entries, disk': Disk, id: Id) {
    forall x :: x != id ==> Value(entries', disk', x) == Value(entries, disk, x)
  }

  // --------------------------------------------------------------------------
  // The containers
  // --------------------------------------------------------------------------

  /** The LRU list holds every entry once, except `out`, which an operation has taken out of it. */
  ghost predicate Linked(entries: Entries, lru: seq<Id>, out: set<Id>) {
    && (forall i, j :: 0 <= i < j < |lru| ==> lru[i] != lru[j])
    && (forall x :: x in lru <==> x in entries && x !in out)
  }

  ghost predicate SyncExact(entries: Entries, sync: set<Id>) {
    forall x :: x in sync <==> x in entries && entries[x].synctime != 0
  }

  ghost predicate LifeExact(entries: Entries, life: set<Id>) {
    forall x :: x in life <==> x in entries && entries[x].lifetime != 0
  }

  /** A clean entry repeats the backend; append-only and marked entries are dirty. */
  predicate Sound(e: Entry, disk: Disk, id: Id) {
    && (e.synctime == 0 ==> !e.onlyAppend && !e.marked && Lookup(disk, id) == Some(e.data))
    && (e.onlyAppend ==> e.lifetime == 0 && !e.removeFromDisk)
  }

  ghost predicate AllSound(entries: Entries, disk: Disk, out: set<Id>) {
    forall x :: x in entries && x !in out ==> Sound(entries[x], disk, x)
  }

  function Size(entries: Entries, x: Id): nat {
    if x in entries then |entries[x].data| else 0
  }

  /** The bytes of the listed entries. */
  function ListBytes(entries: Entries, lru: seq<Id>): nat {
    if lru == [] then 0 else ListBytes(entries, lru[..|lru| - 1]) + Size(entries, lru[|lru| - 1])
  }

  /** The bytes of the listed entries that are marked for eviction. */
  function MarkedBytes(entries: Entries, lru: seq<Id>): nat {
    if lru == [] then 0
    else
      var x := lru[|lru| - 1];
      MarkedBytes(entries, lru[..|lru| - 1]) + (if x in entries && entries[x].marked then Size(entries, x) else 0)
  }

  lemma {:induction false} BytesSame(entries: Entries, entries': Entries, lru: seq<Id>)
    requires forall x :: x in lru ==> Size(entries', x) == Size(entries, x)
    ensures ListBytes(entries', lru) == ListBytes(entries, lru)
  {
    if lru != [] {
      assert lru[|lru| - 1] in lru;
      BytesSame(entries, entries', lru[..|lru| - 1]);
    }
  }

  lemma {:induction false} MarkedSame(entries: Entries, entries': Entries, lru: seq<Id>)
    requires forall x :: x in lru ==> x in entries && x in entries' && entries'[x] == entries[x]
    ensures MarkedBytes(entries', lru) == MarkedBytes(entries, lru)
  {
    if lru != [] {
      assert lru[|lru| - 1] in lru;
      MarkedSame(entries, entries', lru[..|lru| - 1]);
    }
  }

  lemma {:induction false} BytesConcat(entries: Entries, a: seq<Id>, b: seq<Id>)
    ensures ListBytes(entries, a + b) == ListBytes(entries, a) + ListBytes(entries, b)
  {
    if b == [] {
      assert a + b == a;
    } else {
      BytesConcat(entries, a, b[..|b| - 1]);
      assert (a + b)[..|a + b| - 1] == a + b[..|b| - 1];
    }
  }

  lemma {:induction false} MarkedConcat(entries: Entries, a: seq<Id>, b: seq<Id>)
    ensures MarkedBytes(entries, a + b) == MarkedBytes(entries, a) + MarkedBytes(entries, b)
  {
    if b == [] {
      assert a + b == a;
    } else {
      MarkedConcat(entries, a, b[..|b| - 1]);
      assert (a + b)[..|a + b| - 1] == a + b[..|b| - 1];
    }
  }

  lemma {:induction false} MarkedAtMost(entries: Entries, lru: seq<Id>)
    ensures MarkedBytes(entries, lru) <= ListBytes(entries, lru)
  {
    if lru != [] { MarkedAtMost(entries, lru[..|lru| - 1]); }
  }

  function RemoveAt(lru: seq<Id>, i: nat): seq<Id>
    requires i < |lru|
  {
    lru[..i] + lru[i + 1..]
  }

  lemma {:induction false} BytesRemove(entries: Entries, lru: seq<Id>, i: nat)
    requires i < |lru|
    ensures ListBytes(entries, lru) == ListBytes(entries, RemoveAt(lru, i)) + Size(entries, lru[i])
  {
    assert lru == lru[..i] + ([lru[i]] + lru[i + 1..]);
    BytesConcat(entries, lru[..i], [lru[i]] + lru[i + 1..]);
    BytesConcat(entries, [lru[i]], lru[i + 1..]);
    BytesConcat(entries, lru[..i], lru[i + 1..]);
    assert [lru[i]][..0] == [];
  }

  /** Taking an entry out of the list. */
  lemma {:induction false} UnlinkedAt(entries: Entries, lru: seq<Id>, out: set<Id>, i: nat)
    requires Linked(entries, lru, out) && i < |lru|
    ensures Linked(entries, RemoveAt(lru, i), out + {lru[i]})
  {
  }

  /** Dropping an entry from every container keeps them in agreement. */
  lemma {:induction false} Dropped(entries: Entries, lru: seq<Id>, sync: set<Id>, life: set<Id>, out: set<Id>, i: nat)
    requires Linked(entries, lru, out) && SyncExact(entries, sync) && LifeExact(entries, life) && i < |lru|
    ensures Linked(entries - {lru[i]}, RemoveAt(lru, i), out) && lru[i] in entries
    ensures SyncExact(entries - {lru[i]}, sync - {lru[i]}) && LifeExact(entries - {lru[i]}, life - {lru[i]})
    ensures ListBytes(entries - {lru[i]}, RemoveAt(lru, i)) + |entries[lru[i]].data| == ListBytes(entries, lru)
    ensures lru[i] !in sync <==> entries[lru[i]].synctime == 0
    ensures lru[i] !in life <==> entries[lru[i]].lifetime == 0
  {
    assert lru[i] in lru;
    BytesRemove(entries, lru, i);
    UnlinkedAt(entries, lru, out, i);
    BytesSame(entries, entries - {lru[i]}, RemoveAt(lru, i));
  }

  /** Putting an entry at the end of the list. */
  lemma {:induction false} LinkedBack(entries: Entries, lru: seq<Id>, out: set<Id>, id: Id)
    requires Linked(entries, lru, out) && id in entries && id in out
    ensures Linked(entries, lru + [id], out - {id})
  {
  }

  // --------------------------------------------------------------------------
  // Writing back
  // --------------------------------------------------------------------------

  /** What a write-back of the entry leaves on the backend. */
  function Flushed(e: Entry, disk: Disk, id: Id): Disk {
    disk[id := if e.onlyAppend then Get(Lookup(disk, id)) + e.data else e.data]
  }

  /** Writing a dirty entry back and dropping it changes no value. */
  lemma {:induction false} FlushDrop(entries: Entries, disk: Disk, id: Id)
    requires id in entries
    ensures SameValues(entries, disk, entries - {id}, Flushed(entries[id], disk, id))
  {
  }

  /** Dropping a sound clean entry changes no value. */
  lemma {:induction false} CleanDrop(entries: Entries, disk: Disk, id: Id)
    requires id in entries && entries[id].synctime == 0 && Sound(entries[id], disk, id)
    ensures SameValues(entries, disk, entries - {id}, disk)
  {
  }

  /** A change of the backend at one key leaves the other entries sound. */
  lemma {:induction false} SoundElsewhere(entries: Entries, disk: Disk, disk': Disk, out: set<Id>, id: Id)
    requires AllSound(entries, disk, out)
    requires forall x :: x != id ==> Lookup(disk', x) == Lookup(disk, x)
    ensures AllSound(entries - {id}, disk', out)
    ensures AllSound(entries, disk', out + {id})
  {
  }

  // --------------------------------------------------------------------------
  // Making room
  // --------------------------------------------------------------------------

  /** A dirty entry is not dropped but marked, and moved to the front of the sync set. */
  function Marked(e: Entry): Entry {
    if e.marked then e else e.(marked := true, synctime := 1)
  }

  /** What making room does to one of the `k` least recently used entries. */
  ghost predicate Evicted(entries: Entries, entries': Entries, x: Id)
    requires x in entries
  {
    if entries[x].synctime == 0 && !entries[x].marked then x !in entries'
    else x in entries' && entries'[x] == Marked(entries[x])
  }

  /** The `k` least recently used entries are dropped if clean and marked if dirty; nothing else changes. */
  ghost predicate Trimmed(entries: Entries, lru: seq<Id>, entries': Entries, lru': seq<Id>, k: nat) {
    && k <= |lru| && |lru| - k <= |lru'|
    && lru'[|lru'| - (|lru| - k)..] == lru[k..]
    && (forall x :: x in entries' ==> x in entries)
    && (forall x :: x in entries && x in lru[..k] ==> Evicted(entries, entries', x))
    && (forall x :: x in entries && x !in lru[..k] ==> x in entries' && entries'[x] == entries[x])
  }

  lemma {:induction false} TrimmedNone(entries: Entries, lru: seq<Id>)
    ensures Trimmed(entries, lru, entries, lru, 0)
  {
  }

  lemma {:induction false} NoBytes(entries: Entries, lru: seq<Id>)
    ensures ListBytes(entries, lru[..0]) == 0
  {
  }

  lemma {:induction false} NextBytes(entries: Entries, lru: seq<Id>, k: nat)
    requires k < |lru|
    ensures ListBytes(entries, lru[..k + 1]) == ListBytes(entries, lru[..k]) + Size(entries, lru[k])
  {
    assert lru[..k + 1][..k] == lru[..k];
  }

  lemma {:induction false} MarkedPrefix(entries: Entries, lru: seq<Id>, i: nat)
    requires i <= |lru|
    ensures MarkedBytes(entries, lru[..i]) <= MarkedBytes(entries, lru)
  {
    assert lru == lru[..i] + lru[i..];
    MarkedConcat(entries, lru[..i], lru[i..]);
  }

  lemma {:induction false} MarkedGrows(entries: Entries, lru: seq<Id>, out: set<Id>, i: nat)
    requires Linked(entries, lru, out) && i < |lru|
    ensures lru[i] in entries
    ensures MarkedBytes(entries[lru[i] := Marked(entries[lru[i]])], lru[..i + 1])
         == MarkedBytes(entries, lru[..i]) + |entries[lru[i]].data|
  {
    var x := lru[i];
    assert x in lru;
    var entries' := entries[x := Marked(entries[x])];
    assert lru[..i + 1][..i] == lru[..i];
    PrefixLinked(entries, lru, out, i);
    MarkedSame(entries, entries', lru[..i]);
  }

  lemma {:induction false} PrefixLinked(entries: Entries, lru: seq<Id>, out: set<Id>, i: nat)
    requires Linked(entries, lru, out) && i < |lru|
    ensures forall x :: x in lru[..i] ==> x in entries && x != lru[i]
  {
  }

  lemma {:induction false} MarkedKeeps(entries: Entries, lru: seq<Id>, out: set<Id>, i: nat)
    requires Linked(entries, lru, out) && i < |lru|
    ensures MarkedBytes(entries - {lru[i]}, RemoveAt(lru, i)[..i]) == MarkedBytes(entries, lru[..i])
  {
    assert RemoveAt(lru, i)[..i] == lru[..i];
    PrefixLinked(entries, lru, out, i);
    MarkedSame(entries, entries - {lru[i]}, lru[..i]);
  }

  lemma {:induction false} SamePlace(entries: Entries, lru: seq<Id>, out: set<Id>, i: nat, j: nat)
    requires Linked(entries, lru, out) && i < |lru| && j < |lru| && lru[i] == lru[j]
    ensures i == j
  {
  }

  /** The next entry in the list is still as it was. */
  lemma {:induction false} NextVictim(entries: Entries, lru: seq<Id>, out: set<Id>, entries': Entries, lru': seq<Id>,
                                      k: nat)
    requires Linked(entries, lru, out) && Trimmed(entries, lru, entries', lru', k) && k < |lru|
    ensures lru'[|lru'| - (|lru| - k)] == lru[k] && lru[k] !in lru[..k] && lru[k] in entries
    ensures lru[k] in entries' && entries'[lru[k]] == entries[lru[k]]
  {
  }

  lemma {:induction false} TrimErase(entries: Entries, lru: seq<Id>, out: set<Id>, entries': Entries, lru': seq<Id>,
                                     k: nat)
    requires Linked(entries, lru, out) && Trimmed(entries, lru, entries', lru', k) && k < |lru|
    requires entries'[lru[k]].synctime == 0 && !entries'[lru[k]].marked
    ensures Trimmed(entries, lru, entries' - {lru[k]}, RemoveAt(lru', |lru'| - (|lru| - k)), k + 1)
  {
  }

  lemma {:induction false} TrimMark(entries: Entries, lru: seq<Id>, out: set<Id>, entries': Entries, lru': seq<Id>,
                                    k: nat)
    requires Linked(entries, lru, out) && Trimmed(entries, lru, entries', lru', k) && k < |lru|
    requires entries'[lru[k]].synctime != 0 || entries'[lru[k]].marked
    ensures Trimmed(entries, lru, entries'[lru[k] := Marked(entries'[lru[k]])], lru', k + 1)
  {
  }

  /** Making room changes no value. */
  lemma {:induction false} TrimmedValues(entries: Entries, lru: seq<Id>, out: set<Id>, entries': Entries, lru': seq<Id>,
                                         k: nat, disk: Disk)
    requires Linked(entries, lru, out) && AllSound(entries, disk, out) && Trimmed(entries, lru, entries', lru', k)
    ensures SameValues(entries, disk, entries', disk)
    ensures AllSound(entries', disk, out)
    ensures forall x :: x in out && x in entries ==> x in entries' && entries'[x] == entries[x]
    ensures forall x :: x in entries && entries[x].synctime != 0 ==>
            x in entries' && entries'[x].data == entries[x].data
  {
  }

  /** When the walk reached the end of the list, every entry left in it is marked. */
  lemma {:induction false} TrimmedAll(entries: Entries, lru: seq<Id>, out: set<Id>, entries': Entries, lru': seq<Id>)
    requires Linked(entries, lru, out) && Linked(entries', lru', out)
    requires Trimmed(entries, lru, entries', lru', |lru|)
    ensures AllMarked(entries', lru')
  {
  }

  /** There is room for `need` more bytes next to what is not marked, or everything is marked. */
  ghost predicate Roomy(entries: Entries, lru: seq<Id>, size: nat, need: nat, max: nat) {
    size + need <= max + MarkedBytes(entries, lru) || AllMarked(entries, lru)
  }

  ghost predicate AllMarked(entries: Entries, lru: seq<Id>) {
    forall x :: x in lru ==> x in entries && entries[x].marked
  }

  // --------------------------------------------------------------------------
  // What an operation does to other keys
  // --------------------------------------------------------------------------

  /** An entry as it was, or a dirty one marked for eviction. */
  predicate Alike(e: Entry, e': Entry) {
    e' == e || (e.synctime != 0 && e' == Marked(e))
  }

  /** At most a dirty entry is marked, or a clean one dropped. */
  predicate KeptAt(entries: Entries, disk: Disk, entries': Entries, disk': Disk, x: Id) {
    && Lookup(disk', x) == Lookup(disk, x)
    && (x in entries' ==> x in entries && Alike(entries[x], entries'[x]))
    && (x in entries && (entries[x].synctime != 0 || entries[x].marked) ==> x in entries')
  }

  ghost predicate Kept(entries: Entries, disk: Disk, entries': Entries, disk': Disk, but: set<Id>) {
    forall x :: x !in but ==> KeptAt(entries, disk, entries', disk', x)
  }

  lemma {:induction false} KeptSelf(entries: Entries, disk: Disk, but: set<Id>)
    ensures Kept(entries, disk, entries, disk, but)
  {
  }

  lemma {:induction false} KeptThen(e0: Entries, d0: Disk, e1: Entries, d1: Disk, e2: Entries, d2: Disk,
                                    b1: set<Id>, b2: set<Id>, but: set<Id>)
    requires Kept(e0, d0, e1, d1, b1) && Kept(e1, d1, e2, d2, b2) && b1 <= but && b2 <= but
    ensures Kept(e0, d0, e2, d2, but)
  {
    forall x | x !in but ensures KeptAt(e0, d0, e2, d2, x) {
      assert KeptAt(e0, d0, e1, d1, x) && KeptAt(e1, d1, e2, d2, x);
    }
  }

  /** A change of one key alone. */
  lemma {:induction false} KeptChange(entries: Entries, disk: Disk, entries': Entries, disk': Disk, id: Id)
    requires entries' - {id} == entries - {id} && disk' - {id} == disk - {id}
    ensures Kept(entries, disk, entries', disk', {id})
  {
    forall x | x != id ensures KeptAt(entries, disk, entries', disk', x) {
      assert x in entries' <==> x in entries' - {id};
      assert x in entries <==> x in entries - {id};
      assert x in entries ==> entries'[x] == (entries' - {id})[x] == entries[x];
      assert x in disk' <==> x in disk' - {id};
      assert x in disk <==> x in disk - {id};
      assert x in disk ==> disk'[x] == (disk' - {id})[x] == disk[x];
    }
  }

  lemma {:induction false} KeptPut(entries: Entries, disk: Disk, id: Id, e: Entry)
    ensures Kept(entries, disk, entries[id := e], disk, {id})
  {
  }

  /** Making room marks or drops, and leaves alone what is out of the list. */
  lemma {:induction false} TrimmedKept(entries: Entries, lru: seq<Id>, out: set<Id>, entries': Entries, lru': seq<Id>,
                                       k: nat, disk: Disk)
    requires Linked(entries, lru, out) && Trimmed(entries, lru, entries', lru', k)
    ensures Kept(entries, disk, entries', disk, {})
    ensures forall x :: x in entries' ==> x in entries
    ensures forall x :: x in out && x in entries ==> x in entries' && entries'[x] == entries[x]
  {
  }

  /** Over sound entries none of this changes a value. */
  lemma {:induction false} KeptValues(entries: Entries, disk: Disk, entries': Entries, disk': Disk, id: Id)
    requires Kept(entries, disk, entries', disk', {id})
    ensures AllSound(entries, disk, {id}) ==>
              AllSound(entries', disk', {id}) && SameValuesBut(entries, disk, entries', disk', id)
  {
    forall x | x != id
      ensures (x in entries ==> Sound(entries[x], disk, x)) ==>
                Value(entries', disk', x) == Value(entries, disk, x) && (x in entries' ==> Sound(entries'[x], disk', x))
    {
      assert KeptAt(entries, disk, entries', disk', x);
    }
  }

  /** An append-only entry is dirty, does not expire and is not to be removed from the backend. */
  predicate AppendShape(e: Entry) {
    e.onlyAppend ==> e.synctime != 0 && e.lifetime == 0 && !e.removeFromDisk
  }

  lemma {:induction false} SoundAt(entries: Entries, disk: Disk, id: Id)
    requires AllSound(entries, disk, {})
    ensures id in entries ==> Sound(entries[id], disk, id) && AppendShape(entries[id])
  {
  }

  /** If the key itself is left sound, so is everything. */
  lemma {:induction false} KeptSound(entries: Entries, disk: Disk, entries': Entries, disk': Disk, id: Id)
    requires Kept(entries, disk, entries', disk', {id})
    ensures AllSound(entries, disk, {}) && (id in entries' ==> Sound(entries'[id], disk', id)) ==>
              AllSound(entries', disk', {}) && SameValuesBut(entries, disk, entries', disk', id)
  {
    if AllSound(entries, disk, {}) {
      Weaken(entries, disk, id);
      KeptValues(entries, disk, entries', disk', id);
    }
  }

  // --------------------------------------------------------------------------
  // The order of the LRU list
  // --------------------------------------------------------------------------

  /** The listed ids that are in `keep`, in the order of the list. */
  function Order(lru: seq<Id>, keep: set<Id>): seq<Id> {
    if lru == [] then []
    else Order(lru[..|lru| - 1], keep) + (if lru[|lru| - 1] in keep then [lru[|lru| - 1]] else [])
  }

  function Listed(lru: seq<Id>): set<Id> {
    set x | x in lru
  }

  /** But for `but`, the list has lost elements at most, and the rest is in the order in which it was. */
  ghost predicate SameOrder(lru: seq<Id>, lru': seq<Id>, but: set<Id>) {
    && (forall x :: x in lru' ==> x in lru || x in but)
    && Order(lru', Listed(lru') - but) == Order(lru, Listed(lru') - but)
  }

  lemma {:induction false} OrderConcat(a: seq<Id>, b: seq<Id>, keep: set<Id>)
    ensures Order(a + b, keep) == Order(a, keep) + Order(b, keep)
  {
    if b == [] {
      assert a + b == a;
    } else {
      OrderConcat(a, b[..|b| - 1], keep);
      assert (a + b)[..|a + b| - 1] == a + b[..|b| - 1];
    }
  }

  lemma {:induction false} OrderOne(x: Id, keep: set<Id>)
    ensures Order([x], keep) == if x in keep then [x] else []
  {
  }

  /** What a smaller selection sees is determined by what a larger one sees. */
  lemma {:induction false} OrderWithin(lru: seq<Id>, keep: set<Id>, less: set<Id>)
    requires less <= keep
    ensures Order(Order(lru, keep), less) == Order(lru, less)
  {
    if lru != [] {
      var x := lru[|lru| - 1];
      OrderWithin(lru[..|lru| - 1], keep, less);
      OrderConcat(Order(lru[..|lru| - 1], keep), if x in keep then [x] else [], less);
      OrderOne(x, less);
    }
  }

  lemma {:induction false} OrderRemoved(lru: seq<Id>, i: nat, keep: set<Id>)
    requires i < |lru| && lru[i] !in keep
    ensures Order(RemoveAt(lru, i), keep) == Order(lru, keep)
  {
    hide Order;
    assert lru == lru[..i] + ([lru[i]] + lru[i + 1..]);
    assert RemoveAt(lru, i) == lru[..i] + lru[i + 1..];
    OrderConcat(lru[..i], lru[i + 1..], keep);
    OrderConcat(lru[..i], [lru[i]] + lru[i + 1..], keep);
    OrderConcat([lru[i]], lru[i + 1..], keep);
    OrderOne(lru[i], keep);
    assert [] + Order(lru[i + 1..], keep) == Order(lru[i + 1..], keep);
  }

  lemma {:induction false} OrderSelf(lru: seq<Id>, but: set<Id>)
    ensures SameOrder(lru, lru, but)
  {
  }

  lemma {:induction false} OrderThen(l0: seq<Id>, l1: seq<Id>, l2: seq<Id>, b1: set<Id>, b2: set<Id>, but: set<Id>)
    requires SameOrder(l0, l1, b1) && SameOrder(l1, l2, b2) && b1 <= but && b2 <= but
    ensures SameOrder(l0, l2, but)
  {
    hide Order;
    var keep := Listed(l2) - but;
    OrderWithin(l2, Listed(l2) - b2, keep);
    OrderWithin(l1, Listed(l2) - b2, keep);
    OrderWithin(l1, Listed(l1) - b1, keep);
    OrderWithin(l0, Listed(l1) - b1, keep);
  }

  lemma {:induction false} OnceListed(entries: Entries, lru: seq<Id>, out: set<Id>, i: nat)
    requires Linked(entries, lru, out) && i < |lru|
    ensures forall j :: 0 <= j < |lru| && j != i ==> lru[j] != lru[i]
  {
    forall j | 0 <= j < |lru| && j != i ensures lru[j] != lru[i] {
      if j < i { assert lru[j] != lru[i]; } else { assert lru[i] != lru[j]; }
    }
  }

  /** Taking an id out of a list that has it once. */
  lemma {:induction false} OrderErase(lru: seq<Id>, i: nat)
    requires i < |lru| && forall j :: 0 <= j < |lru| && j != i ==> lru[j] != lru[i]
    ensures SameOrder(lru, RemoveAt(lru, i), {})
  {
    var lru' := RemoveAt(lru, i);
    assert lru[i] !in lru';
    OrderRemoved(lru, i, Listed(lru') - {});
  }

  lemma {:induction false} OrderPush(lru: seq<Id>, id: Id)
    ensures SameOrder(lru, lru + [id], {id})
  {
    var keep := Listed(lru + [id]) - {id};
    OrderConcat(lru, [id], keep);
    OrderOne(id, keep);
  }

  // --------------------------------------------------------------------------
  // Changing one entry
  // --------------------------------------------------------------------------

  /** Replacing one entry outside the list by another keeps list and sizes. */
  lemma {:induction false} Replaced(entries: Entries, lru: seq<Id>, out: set<Id>, id: Id, e: Entry)
    requires Linked(entries, lru, out) && id in entries && id in out
    ensures Linked(entries[id := e], lru, out) && ListBytes(entries[id := e], lru) == ListBytes(entries, lru)
    ensures MarkedBytes(entries[id := e], lru) == MarkedBytes(entries, lru)
    ensures AllMarked(entries, lru) ==> AllMarked(entries[id := e], lru)
  {
    BytesSame(entries, entries[id := e], lru);
    MarkedSame(entries, entries[id := e], lru);
  }

  /** What is left unmarked fits, or nothing but `id` is left unmarked. */
  ghost predicate Fits(entries: Entries, lru: seq<Id>, size: nat, max: nat, id: Id) {
    size <= max + MarkedBytes(entries, lru) || forall x :: x in lru && x != id ==> x in entries && entries[x].marked
  }

  /** An entry at the end of the list. */
  lemma {:induction false} PutBack(entries: Entries, lru: seq<Id>, id: Id, size: nat, max: nat)
    requires Linked(entries, lru, {id}) && id in entries
    requires Roomy(entries, lru, size, |entries[id].data|, max)
    ensures Linked(entries, lru + [id], {})
            && ListBytes(entries, lru + [id]) == ListBytes(entries, lru) + |entries[id].data|
    ensures Fits(entries, lru + [id], size + |entries[id].data|, max, id)
  {
  }

  /** A new entry, not yet in the list. */
  lemma {:induction false} Created(entries: Entries, lru: seq<Id>, id: Id, e: Entry)
    requires Linked(entries, lru, {}) && id !in entries
    ensures Linked(entries[id := e], lru, {id}) && ListBytes(entries[id := e], lru) == ListBytes(entries, lru)
    ensures MarkedBytes(entries[id := e], lru) == MarkedBytes(entries, lru)
    ensures AllMarked(entries, lru) ==> AllMarked(entries[id := e], lru)
  {
    assert id !in lru;
    BytesSame(entries, entries[id := e], lru);
    MarkedSame(entries, entries[id := e], lru);
  }

  /** An entry that is clean and does not expire is in neither ordered set. */
  lemma {:induction false} CreatedSets(entries: Entries, sync: set<Id>, life: set<Id>, id: Id, e: Entry)
    requires SyncExact(entries, sync) && LifeExact(entries, life) && id !in entries && e.synctime == 0
             && e.lifetime == 0
    ensures SyncExact(entries[id := e], sync) && LifeExact(entries[id := e], life)
  {
  }

  lemma {:induction false} Weaken(entries: Entries, disk: Disk, id: Id)
    requires AllSound(entries, disk, {})
    ensures AllSound(entries, disk, {id})
  {
  }

  /** Clearing the sync time of an entry. */
  lemma {:induction false} Undirtied(entries: Entries, lru: seq<Id>, sync: set<Id>, life: set<Id>, id: Id)
    requires Linked(entries, lru, {}) && SyncExact(entries, sync) && LifeExact(entries, life) && id in entries
    ensures var entries' := entries[id := entries[id].(synctime := 0)];
            && Linked(entries', lru, {}) && SyncExact(entries', sync - {id}) && LifeExact(entries', life)
            && ListBytes(entries', lru) == ListBytes(entries, lru) && entries' - {id} == entries - {id}
    ensures id in lru
  {
    BytesSame(entries, entries[id := entries[id].(synctime := 0)], lru);
  }

  /** The cache resizes its buffer and copies; the result is the plain write. */
  lemma {:induction false} CopiedIn(raw: Data, offset: nat, data: Data)
    ensures Resized(raw, offset + |data|)[..offset] + data == Overwritten(Some(raw), offset, data)
  {
    var left := Resized(raw, offset + |data|)[..offset] + data;
    var right := Overwritten(Some(raw), offset, data);
    forall i | 0 <= i < |left| ensures left[i] == right[i] {
      if i < offset {
        assert left[i] == Resized(raw, offset + |data|)[i] == if i < |raw| then raw[i] else 0;
        assert right[i] == if i < |Get(Some(raw))| then Get(Some(raw))[i] else 0;
      } else {
        assert left[i] == data[i - offset];
      }
    }
  }

  /** `std::vector::resize`: truncates, or fills with zeros. */
  function Resized(raw: Data, n: nat): (r: Data)
    ensures |r| == n
  {
    if n <= |raw| then raw[..n] else raw + seq(n - |raw|, _ => 0)
  }

  /** An entry that repeats the backend leaves the value of its key as it was. */
  lemma {:induction false} Populated(entries: Entries, disk: Disk, entries': Entries, id: Id)
    requires SameValuesBut(entries, disk, entries', disk, id) && AllSound(entries', disk, {id})
    requires id !in entries && id in disk && id in entries' && entries'[id].data == disk[id]
    requires !entries'[id].onlyAppend && !entries'[id].marked
    ensures SameValues(entries, disk, entries', disk) && AllSound(entries', disk, {})
  {
  }

  lemma {:induction false} TakenFrom(entries: Entries, lru: seq<Id>, i: nat)
    requires Linked(entries, lru, {}) && i < |lru|
    ensures Linked(entries, RemoveAt(lru, i), {lru[i]}) && lru[i] in entries
    ensures ListBytes(entries, lru) == ListBytes(entries, RemoveAt(lru, i)) + |entries[lru[i]].data|
  {
    assert lru[i] in lru;
    UnlinkedAt(entries, lru, {}, i);
    assert {} + {lru[i]} == {lru[i]};
    BytesRemove(entries, lru, i);
  }

  /** The sync set after an entry became or stayed dirty. */
  lemma {:induction false} SyncAfter(entries: Entries, sync: set<Id>, id: Id, e: Entry)
    requires SyncExact(entries, sync) && id in entries && e.synctime != 0
    ensures SyncExact(entries[id := e], sync + {id})
    ensures entries[id].synctime != 0 ==> sync + {id} == sync
  {
  }

  /** The lifetime set after a write: exact unless the write gave no lifetime to an entry that had one. */
  lemma {:induction false} LifeAfter(entries: Entries, life: set<Id>, id: Id, e: Entry, lifetime: nat, life': set<Id>)
    requires LifeExact(entries, life) && id in entries
    requires life' == (if entries[id].lifetime != 0 then life - {id} else life) + (if lifetime != 0 then {id} else {})
    requires lifetime != 0 ==> e.lifetime != 0
    requires lifetime == 0 ==> e.lifetime == entries[id].lifetime
    ensures LifeExact(entries[id := e], life') <==> !(entries[id].lifetime != 0 && lifetime == 0)
    ensures id in life' <==> lifetime != 0
  {
  }

  /** The lifetime field after a write: one that is not given leaves the field as it was. */
  function LifetimeAfter(entries: Entries, id: Id, lifetime: nat, now: nat): nat {
    if lifetime != 0 then lifetime + now else if id in entries then entries[id].lifetime else 0
  }

  /** What a write stores, given the value before. */
  function Written(v: Option<Data>, offset: nat, data: Data, append: bool): Data {
    if append then Get(v) + data else Overwritten(v, offset, data)
  }

  /** Only the bytes before the offset matter to a write. */
  lemma {:induction false} WrittenFrom(v: Option<Data>, raw: Data, offset: nat, data: Data, append: bool)
    requires Get(v) == raw || (offset == 0 && !append)
    ensures Written(v, offset, data, append) == Written(Some(raw), offset, data, append)
  {
    assert Get(Some(raw)) == raw;
    if !append {
      assert Overwritten(v, offset, data) == Overwritten(Some(raw), offset, data);
    }
  }

  /** Turning a fresh empty entry into an append-only one. */
  lemma {:induction false} AppendOnly(entries: Entries, lru: seq<Id>, sync: set<Id>, life: set<Id>, id: Id, e: Entry)
    requires Linked(entries, lru, {}) && SyncExact(entries, sync) && LifeExact(entries, life)
    requires id in entries && e.data == entries[id].data && e.synctime != 0 && e.lifetime == entries[id].lifetime
    ensures Linked(entries[id := e], lru, {}) && ListBytes(entries[id := e], lru) == ListBytes(entries, lru)
    ensures SyncExact(entries[id := e], sync + {id}) && LifeExact(entries[id := e], life)
  {
    BytesSame(entries, entries[id := e], lru);
  }

  lemma {:induction false} SameSelf(entries: Entries, disk: Disk)
    ensures SameValues(entries, disk, entries, disk)
  {
  }

  lemma {:induction false} ButSelf(entries: Entries, disk: Disk, id: Id)
    ensures SameValuesBut(entries, disk, entries, disk, id)
  {
  }

  /** Changing only the contents of an entry leaves the ordered sets exact. */
  lemma {:induction false} OneDirty(entries: Entries, sync: set<Id>, life: set<Id>, id: Id, e: Entry)
    requires SyncExact(entries, sync) && LifeExact(entries, life) && id in entries
    requires e.synctime == entries[id].synctime && e.lifetime == entries[id].lifetime
    ensures SyncExact(entries[id := e], sync) && LifeExact(entries[id := e], life)
  {
  }

  /** A backend write of a key that is not cached. */
  lemma {:induction false} DiskWrite(entries: Entries, disk: Disk, id: Id, data: Data)
    requires AllSound(entries, disk, {}) && id !in entries
    ensures AllSound(entries, disk[id := data], {})
    ensures SameValuesBut(entries, disk, entries, disk[id := data], id)
    ensures Value(entries, disk[id := data], id) == Some(data)
  {
  }

  // --------------------------------------------------------------------------
  // Background work
  // --------------------------------------------------------------------------

  /** `x` may be the first element of a set ordered by `time`. */
  predicate First(s: set<Id>, time: map<Id, nat>, x: Id)
    requires s <= time.Keys
  {
    x in s && forall y :: y in s ==> time[x] <= time[y]
  }

  lemma {:induction false} FirstExists(s: set<Id>, time: map<Id, nat>)
    requires s != {} && s <= time.Keys
    ensures exists x :: First(s, time, x)
  {
    var x :| x in s;
    var rest := s - {x};
    if rest == {} {
      assert s == {x};
      assert First(s, time, x);
    } else {
      FirstExists(rest, time);
      var y :| First(rest, time, y);
      assert s == rest + {x};
      assert First(s, time, if time[x] <= time[y] then x else y);
    }
  }

  predicate Expired(e: Entry, now: nat) {
    0 < e.lifetime <= now
  }

  predicate Due(e: Entry, now: nat) {
    0 < e.synctime <= now
  }

  lemma {:induction false} OneByte(entries: Entries, id: Id)
    ensures ListBytes(entries, [id]) == Size(entries, id)
  {
  }

  lemma {:induction false} InList(entries: Entries, lru: seq<Id>, id: Id)
    requires Linked(entries, lru, {}) && id in entries
    ensures id in lru
  {
  }

  /** The entry after its contents were written back, if it stays cached. */
  function WrittenBack(entries: Entries, id: Id): Entries
    requires id in entries
  {
    if entries[id].onlyAppend || entries[id].marked then entries - {id}
    else entries[id := entries[id].(synctime := 0)]
  }

  /** Writing an entry back changes no value. */
  lemma {:induction false} SyncedBack(entries: Entries, disk: Disk, id: Id)
    requires AllSound(entries, disk, {}) && id in entries && entries[id].synctime != 0
    ensures SameValues(entries, disk, WrittenBack(entries, id), Flushed(entries[id], disk, id))
    ensures AllSound(WrittenBack(entries, id), Flushed(entries[id], disk, id), {})
  {
    var entries', disk' := WrittenBack(entries, id), Flushed(entries[id], disk, id);
    forall x | x in entries' ensures Sound(entries'[x], disk', x) { assert Sound(entries[x], disk, x); }
  }

  /** Some due entries have been written back; nothing else has changed. */
  ghost predicate SyncedSome(e0: Entries, d0: Disk, e: Entries, d: Disk, now: nat) {
    && (forall x :: x in e ==> x in e0 && e[x].data == e0[x].data && e[x].lifetime == e0[x].lifetime)
    && (forall x :: x in e0 && !Due(e0[x], now) ==> x in e && e[x] == e0[x])
    && (forall x :: x in e0 && Due(e0[x], now) ==> (x in e && e[x] == e0[x]) || Lookup(d, x) == Value(e0, d0, x))
  }

  lemma {:induction false} SyncedStep(e0: Entries, d0: Disk, e: Entries, d: Disk, now: nat, id: Id)
    requires SyncedSome(e0, d0, e, d, now) && SameValues(e0, d0, e, d) && id in e && Due(e[id], now)
    ensures SyncedSome(e0, d0, WrittenBack(e, id), Flushed(e[id], d, id), now)
  {
    var e', d' := WrittenBack(e, id), Flushed(e[id], d, id);
    assert Lookup(d', id) == Value(e, d, id);
    forall x | x in e0 && Due(e0[x], now)
      ensures (x in e' && e'[x] == e0[x]) || Lookup(d', x) == Value(e0, d0, x)
    {
      if x != id { assert Lookup(d', x) == Lookup(d, x); }
    }
  }

  lemma {:induction false} SyncedNone(entries: Entries, disk: Disk, now: nat)
    ensures SyncedSome(entries, disk, entries, disk, now)
  {
  }

  lemma {:induction false} SameThenSame(e0: Entries, d0: Disk, e1: Entries, d1: Disk, e2: Entries, d2: Disk)
    requires SameValues(e0, d0, e1, d1) && SameValues(e1, d1, e2, d2)
    ensures SameValues(e0, d0, e2, d2)
  {
  }

  lemma {:induction false} MarkedDirty(entries: Entries, lru: seq<Id>, disk: Disk)
    requires Linked(entries, lru, {}) && AllSound(entries, disk, {}) && AllMarked(entries, lru)
    ensures forall x :: x in entries ==> entries[x].synctime != 0
  {
  }

  lemma {:induction false} HeadListed(lru: seq<Id>)
    ensures lru == [] || exists x :: x in lru
  {
    if lru != [] { assert lru[0] in lru; }
  }

  lemma {:induction false} EmptyCache(entries: Entries, lru: seq<Id>, life: set<Id>, disk: Disk)
    requires entries == map[] && Linked(entries, lru, {}) && LifeExact(entries, life)
    ensures lru == [] && life == {} && ListBytes(entries, lru) == 0
  {
    HeadListed(lru);
  }

  // --------------------------------------------------------------------------
  // Windows in which the background thread holds no lock
  // --------------------------------------------------------------------------

  /** The byte at a position, zero behind the end. */
  function ByteAt(v: Option<Data>, i: nat): Byte {
    if i < |Get(v)| then Get(v)[i] else 0
  }

  predicate AlikeBelow(v: Option<Data>, w: Option<Data>, offset: nat) {
    forall i: nat :: i < offset ==> ByteAt(v, i) == ByteAt(w, i)
  }

  /** A write gives the same on two values exactly when they agree below its offset. */
  lemma {:induction false} OverwrittenAlike(v: Option<Data>, w: Option<Data>, offset: nat, data: Data)
    ensures Overwritten(v, offset, data) == Overwritten(w, offset, data) <==> AlikeBelow(v, w, offset)
  {
    var a, b := Overwritten(v, offset, data), Overwritten(w, offset, data);
    forall i: nat | i < offset ensures a[i] == ByteAt(v, i) && b[i] == ByteAt(w, i) { }
    if AlikeBelow(v, w, offset) {
      forall i | 0 <= i < |a| ensures a[i] == b[i] { if i < offset { assert ByteAt(v, i) == ByteAt(w, i); } }
    }
    if a == b {
      forall i: nat | i < offset ensures ByteAt(v, i) == ByteAt(w, i) { assert a[i] == b[i]; }
    }
  }

  /** Removing listed keys from the backend: a listed key with a clean entry is the only harm to the cache. */
  lemma {:induction false} RemovedKeys(entries: Entries, disk: Disk, disk': Disk, remove: seq<Id>)
    requires AllSound(entries, disk, {})
    requires forall x :: Lookup(disk', x) == if x in remove then None else Lookup(disk, x)
    ensures AllSound(entries, disk', {}) <==> forall x :: x in remove && x in entries ==> entries[x].synctime != 0
    ensures forall x :: Value(entries, disk', x) == Value(entries, disk, x) <==>
              || x !in remove
              || (x !in entries && x !in disk)
              || (x in entries && (!entries[x].onlyAppend || Get(Lookup(disk, x)) == []))
    ensures forall x :: x in remove && x !in entries ==> Value(entries, disk', x) == None
  {
    forall x | x in entries ensures Sound(entries[x], disk', x) <==> !(x in remove && entries[x].synctime == 0) {
      assert Sound(entries[x], disk, x);
    }
    forall x ensures Value(entries, disk', x) == Value(entries, disk, x) <==>
                       || x !in remove
                       || (x !in entries && x !in disk)
                       || (x in entries && (!entries[x].onlyAppend || Get(Lookup(disk, x)) == []))
    {
      if x in remove && x in entries && entries[x].onlyAppend {
        var d := entries[x].data;
        assert |[] + d| == |d| && |Get(Lookup(disk, x)) + d| == |Get(Lookup(disk, x))| + |d|;
        assert [] + d == d;
      }
    }
  }

  /**
   Writing an older copy of an entry to the backend, in any state that the other keys leave sound: no value
   changes exactly when the key is cached with its whole value, or the backend already has that copy.
   */
  lemma {:induction false} SnapshotWritten(entries: Entries, disk: Disk, id: Id, copy: Data)
    requires AllSound(entries, disk, {id})
    ensures SameValues(entries, disk, entries, disk[id := copy]) <==>
            if id !in entries then Lookup(disk, id) == Some(copy)
            else entries[id].onlyAppend ==> Get(Lookup(disk, id)) == copy
    ensures AllSound(entries, disk[id := copy], {}) <==> (id in entries ==> Sound(entries[id], disk[id := copy], id))
  {
    var disk' := disk[id := copy];
    forall x | x in entries && x != id ensures Sound(entries[x], disk', x) { assert Sound(entries[x], disk, x); }
    if id in entries && entries[id].onlyAppend {
      var d := entries[id].data;
      assert (Get(Lookup(disk, id)) + d)[..|Get(Lookup(disk, id))|] == Get(Lookup(disk, id));
      assert (copy + d)[..|copy|] == copy;
      assert |copy + d| == |copy| + |d|;
    }
    assert SameValues(entries, disk, entries, disk') <==> Value(entries, disk', id) == Value(entries, disk, id);
  }
}
