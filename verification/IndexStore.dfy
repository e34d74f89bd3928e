/**
 Object tables and index tables side by side: an object lists a tag with some data
 exactly when the tag's table, in the object's shard, lists the object with that
 data.
 */
module IndexStore {
  import opened Basics
  import opened IndexTables
  import opened IndexShards

  lemma {:induction false} DataOfMember(t: Table, x: Id, d: Data)
    requires DistinctTags(t)
    ensures Entry(x, d) in t <==> DataOf(t, x) == Some(d)
  {
    if t != [] {
      assert t == [t[0]] + t[1..];
      assert forall e :: e in t[1..] ==> e.index != t[0].index;
      DataOfMember(t[1..], x, d);
    }
  }

  lemma {:induction false} StrictDistinct(t: Table)
    requires Strict(t)
    ensures DistinctTags(t)
  {
  }

  lemma {:induction false} UpdatedData(t: Table, t': Table, obj: Id, data: Data, action: Action, x: Id)
    requires Strict(t) && Updated(t, t', obj, data, action)
    ensures DataOf(t', x) == if x != obj then DataOf(t, x) else if action.InsertData? then Some(data) else None
  {
    StrictDistinct(t);
    StrictDistinct(t');
    if DataOf(t', x).Some? { DataOfMember(t', x, DataOf(t', x).value); DataOfMember(t, x, DataOf(t', x).value); }
    if DataOf(t, x).Some? { DataOfMember(t', x, DataOf(t, x).value); DataOfMember(t, x, DataOf(t, x).value); }
    DataOfMember(t', x, data);
  }

  /** The number of shards, the hash of an index id and the shard of an object. */
  datatype Config = Config(count: nat, hash: nat -> nat, shardOf: nat -> nat)

  ghost predicate ConfigOk(c: Config) {
    0 < c.count <= TWO32 && Injective(c.hash) && forall o :: c.shardOf(o) < c.count
  }

  type Objects = map<Id, Table>
  type Tables = map<TableId, Table>

  function ObjectTable(objects: Objects, o: Id): Table {
    if o in objects then objects[o] else []
  }

  function IndexTable(c: Config, tables: Tables, tag: Id, shard: nat): Table
    requires c.count > 0
  {
    var id := TableOf(tag, shard, c.count, c.hash);
    if id in tables then tables[id] else []
  }

  /** The data with which the table of `tag` in a shard lists an object. */
  function Listed(c: Config, tables: Tables, tag: Id, shard: nat, o: Id): Option<Data>
    requires c.count > 0
  {
    DataOf(IndexTable(c, tables, tag, shard), o)
  }

  /** No object lists a tag twice. */
  ghost predicate ObjectsStrict(objects: Objects) {
    forall o :: o in objects ==> Strict(objects[o])
  }

  /** No index table lists an object twice. */
  ghost predicate TablesStrict(tables: Tables) {
    forall id :: id in tables ==> Strict(tables[id])
  }

  /** Both directions at once: an object's list and the index tables hold the same data. */
  ghost predicate Mirrored(c: Config, objects: Objects, tables: Tables)
    requires c.count > 0
  {
    forall o: Id, tag: Id, s: nat :: s < c.count ==>
      Listed(c, tables, tag, s, o) == if s == c.shardOf(o) then DataOf(ObjectTable(objects, o), tag) else None
  }

  /**
   The same entry by entry, for lists that may repeat a tag: an object lists a tag with some data exactly
   when the tag's table in the object's shard lists the object with it, and other shards do not.
   */
  ghost predicate TwoWay(c: Config, objects: Objects, tables: Tables)
    requires c.count > 0
  {
    forall o: Id, tag: Id, d: Data, s: nat :: s < c.count ==>
      (Entry(o, d) in IndexTable(c, tables, tag, s) <==> s == c.shardOf(o) && Entry(tag, d) in ObjectTable(objects, o))
  }

  /** For lists without duplicates the two statements are the same. */
  lemma {:induction false} MirroredIsTwoWay(c: Config, objects: Objects, tables: Tables)
    requires c.count > 0 && ObjectsStrict(objects) && TablesStrict(tables)
    ensures Mirrored(c, objects, tables) <==> TwoWay(c, objects, tables)
  {
    if TwoWay(c, objects, tables) {
      forall o: Id, tag: Id, s: nat | s < c.count
        ensures Listed(c, tables, tag, s, o) == if s == c.shardOf(o) then DataOf(ObjectTable(objects, o), tag) else None
      {
        ListingFrom(c, objects, tables, tag, s, o);
      }
    }
    if Mirrored(c, objects, tables) {
      forall o: Id, tag: Id, d: Data, s: nat | s < c.count
        ensures Entry(o, d) in IndexTable(c, tables, tag, s) <==>
                s == c.shardOf(o) && Entry(tag, d) in ObjectTable(objects, o)
      {
        ListedEntry(c, tables, tag, s, o, d);
        DataOfMember(ObjectTable(objects, o), tag, d);
        assert Listed(c, tables, tag, s, o) == if s == c.shardOf(o) then DataOf(ObjectTable(objects, o), tag) else None;
      }
    }
  }

  /** Listings in a table without duplicates are single. */
  lemma {:induction false} ListedEntry(c: Config, tables: Tables, tag: Id, s: nat, o: Id, d: Data)
    requires c.count > 0 && TablesStrict(tables)
    ensures Entry(o, d) in IndexTable(c, tables, tag, s) <==> Listed(c, tables, tag, s, o) == Some(d)
  {
    DataOfMember(IndexTable(c, tables, tag, s), o, d);
  }

  lemma {:induction false} ListingFrom(c: Config, objects: Objects, tables: Tables, tag: Id, s: nat, o: Id)
    requires c.count > 0 && s < c.count
    requires TwoWay(c, objects, tables) && Strict(ObjectTable(objects, o)) && TablesStrict(tables)
    ensures Listed(c, tables, tag, s, o) == if s == c.shardOf(o) then DataOf(ObjectTable(objects, o), tag) else None
  {
    var a, b := Listed(c, tables, tag, s, o), DataOf(ObjectTable(objects, o), tag);
    if a.Some? {
      ListedEntry(c, tables, tag, s, o, a.value);
      DataOfMember(ObjectTable(objects, o), tag, a.value);
    }
    if b.Some? {
      ListedEntry(c, tables, tag, s, o, b.value);
      DataOfMember(ObjectTable(objects, o), tag, b.value);
    }
  }

  /** What a list of updates, made in order, says about a tag: the last listing, or nothing to change. */
  function Said(es: Table, action: Action, tag: Id): Option<Option<Data>> {
    var d := LastOf(es, tag);
    if d.None? then None else if action.InsertData? then Some(d) else Some(None)
  }

  /** The listings of one object in its shard follow the updates `es`; everything else is unchanged. */
  ghost predicate Applied(c: Config, tables: Tables, tables': Tables, o: Id, es: Table, action: Action)
    requires c.count > 0
  {
    forall x: Id, tag: Id, s: nat :: s < c.count ==>
      Listed(c, tables', tag, s, x) ==
        if x == o && s == c.shardOf(o) && Said(es, action, tag).Some? then Said(es, action, tag).value
        else Listed(c, tables, tag, s, x)
  }

  lemma {:induction false} SaidSnoc(es: Table, e: Entry, action: Action, tag: Id)
    ensures Said(es + [e], action, tag) ==
            if tag != e.index then Said(es, action, tag)
            else if action.InsertData? then Some(Some(e.data)) else Some(None)
  {
    assert (es + [e])[..|es|] == es;
  }

  lemma {:induction false} OneUpdate(c: Config, tables: Tables, e: Entry, o: Id, action: Action, t': Table)
    requires ConfigOk(c) && Strict(IndexTable(c, tables, e.index, c.shardOf(o)))
    requires Updated(IndexTable(c, tables, e.index, c.shardOf(o)), t', o, e.data, action)
    ensures Applied(c, tables, tables[TableOf(e.index, c.shardOf(o), c.count, c.hash) := t'], o, [e], action)
  {
    hide Strict, Updated, Listed, Said, TableOf, IndexTable;
    var tables' := tables[TableOf(e.index, c.shardOf(o), c.count, c.hash) := t'];
    forall x: Id, tag: Id, s: nat | s < c.count
      ensures Listed(c, tables', tag, s, x) ==
              if x == o && s == c.shardOf(o) && Said([e], action, tag).Some? then Said([e], action, tag).value
              else Listed(c, tables, tag, s, x)
    {
      OneListing(c, tables, e, o, action, t', x, tag, s);
    }
  }

  lemma {:induction false} OneListing(c: Config, tables: Tables, e: Entry, o: Id, action: Action, t': Table,
                                      x: Id, tag: Id, s: nat)
    requires ConfigOk(c) && Strict(IndexTable(c, tables, e.index, c.shardOf(o))) && s < c.count
    requires Updated(IndexTable(c, tables, e.index, c.shardOf(o)), t', o, e.data, action)
    ensures Listed(c, tables[TableOf(e.index, c.shardOf(o), c.count, c.hash) := t'], tag, s, x) ==
            if x == o && s == c.shardOf(o) && Said([e], action, tag).Some? then Said([e], action, tag).value
            else Listed(c, tables, tag, s, x)
  {
    hide Strict, Updated, Said;
    var id := TableOf(e.index, c.shardOf(o), c.count, c.hash);
    assert [] + [e] == [e];
    SaidSnoc([], e, action, tag);
    SaidNothing(action, tag);
    if TableOf(tag, s, c.count, c.hash) == id {
      TablesApart(tag, s, e.index, c.shardOf(o), c.count, c.hash);
      UpdatedData(IndexTable(c, tables, tag, s), t', o, e.data, action, x);
    } else {
      assert tag != e.index || s != c.shardOf(o);
    }
  }

  lemma {:induction false} SaidNothing(action: Action, tag: Id)
    ensures Said([], action, tag).None?
  {
  }

  /** Updates follow each other; a later one for the same tag wins. */
  lemma {:induction false} ThenOne(c: Config, t0: Tables, t1: Tables, t2: Tables, o: Id, es: Table, e: Entry,
                                   action: Action)
    requires c.count > 0 && Applied(c, t0, t1, o, es, action) && Applied(c, t1, t2, o, [e], action)
    ensures Applied(c, t0, t2, o, es + [e], action)
  {
    assert [] + [e] == [e];
    forall tag: Id ensures Said(es + [e], action, tag) ==
                           if Said([e], action, tag).Some? then Said([e], action, tag) else Said(es, action, tag) {
      SaidSnoc(es, e, action, tag);
      SaidSnoc([], e, action, tag);
    }
  }

  /** No updates, no change. */
  lemma {:induction false} NoUpdates(c: Config, tables: Tables, o: Id, action: Action)
    requires c.count > 0
    ensures Applied(c, tables, tables, o, [], action)
  {
  }

  // --------------------------------------------------------------------------
  // Requests
  // --------------------------------------------------------------------------

  /** No tag is requested with two different data. */
  ghost predicate OneDataPerTag(request: Table) {
    forall a, b :: a in request && b in request && a.index == b.index ==> a == b
  }

  /** `order` has the entries of the request, in some order. */
  predicate Reordered(request: Table, order: Table) {
    multiset(order) == multiset(request)
  }

  /** For each tag, the data inserted last is the smallest one requested for it. */
  ghost predicate LastIsSmallest(request: Table, order: Table) {
    forall tag: Id :: LastOf(order, tag) == SmallestOf(request, tag)
  }

  lemma {:induction false} SameMembers(request: Table, order: Table)
    requires Reordered(request, order)
    ensures forall e :: e in order <==> e in request
    ensures forall x: Id :: Has(order, x) <==> Has(request, x)
  {
    forall e ensures e in order <==> e in request {
      assert e in order <==> e in multiset(order);
      assert e in request <==> e in multiset(request);
    }
    forall x: Id ensures Has(order, x) <==> Has(request, x) {
      HasMember(order, x);
      HasMember(request, x);
    }
  }

  lemma {:induction false} OneDataAgrees(request: Table, order: Table)
    requires OneDataPerTag(request) && Reordered(request, order)
    ensures LastIsSmallest(request, order)
  {
    SameMembers(request, order);
    forall tag: Id ensures LastOf(order, tag) == SmallestOf(request, tag) {
      LastOfHas(order, tag);
      SmallestOfHas(request, tag);
    }
  }

  /** Of two data for a tag, the larger one may come last. */
  lemma {:induction false} LargerLast(request: Table, a: Entry, b: Entry) returns (order: Table)
    requires a in request && b in request && a.index == b.index && a.data < b.data
    ensures Reordered(request, order) && !LastIsSmallest(request, order)
  {
    var i :| 0 <= i < |request| && request[i] == b;
    order := request[..i] + request[i + 1..] + [b];
    assert request == request[..i] + [b] + request[i + 1..];
    SmallestOfHas(request, a.index);
    assert LastOf(order, b.index) == Some(b.data);
  }

  /** Whatever the order of the insertions, they agree exactly when no tag is requested with two different data. */
  lemma {:induction false} EveryOrder(request: Table)
    ensures (forall order :: Reordered(request, order) ==> LastIsSmallest(request, order)) <==> OneDataPerTag(request)
  {
    if OneDataPerTag(request) {
      forall order | Reordered(request, order) ensures LastIsSmallest(request, order) {
        OneDataAgrees(request, order);
      }
    } else {
      var a, b :| a in request && b in request && a.index == b.index && a != b;
      if a.data < b.data {
        var order := LargerLast(request, a, b);
      } else {
        var order := LargerLast(request, b, a);
      }
    }
  }

  lemma {:induction false} DistinctOneData(request: Table)
    requires DistinctTags(request)
    ensures OneDataPerTag(request)
  {
  }

  class Store {
    const c: Config
    var objects: Objects
    var tables: Tables

    ghost predicate Valid()
      reads this
    {
      ConfigOk(c) && ObjectsStrict(objects) && TablesStrict(tables) && Mirrored(c, objects, tables)
    }

    constructor (config: Config)
      requires ConfigOk(config)
      ensures Valid() && objects == map[] && tables == map[] && c == config
    {
      c, objects, tables := config, map[], map[];
    }

    /** The handler of INDEXES_INTERNAL: one table, one object. */
    method UpdateIndexInternal(o: Id, e: Entry, action: Action)
      requires ConfigOk(c) && TablesStrict(tables)
      modifies `tables
      ensures TablesStrict(tables) && Applied(c, old(tables), tables, o, [e], action)
    {
      hide Applied, Updated;
      var id := TableOf(e.index, c.shardOf(o), c.count, c.hash);
      var data := if id in tables then tables[id] else [];
      var newData := ConvertIndexTable(data, o, e.data, action);
      UpdatedStrict(data, newData, o, e.data, action);
      OneUpdate(c, tables, e, o, action, newData);
      if data == newData {
        Unwritten(c, tables, id, newData, o, [e], action);
      } else {
        tables := tables[id := newData];
      }
    }

    /** A loop of updates for one object, with any repetitions. */
    method UpdateAll(o: Id, es: Table, action: Action)
      requires ConfigOk(c) && TablesStrict(tables)
      modifies `tables
      ensures TablesStrict(tables) && Applied(c, old(tables), tables, o, es, action)
    {
      hide Applied, TablesStrict;
      NoUpdates(c, tables, o, action);
      var i := 0;
      while i < |es|
        invariant i <= |es| && TablesStrict(tables) && Applied(c, old(tables), tables, o, es[..i], action)
      {
        ghost var t1 := tables;
        UpdateIndexInternal(o, es[i], action);
        assert es[..i + 1] == es[..i] + [es[i]];
        ThenOne(c, old(tables), t1, tables, o, es[..i], es[i], action);
        i := i + 1;
      }
      assert es[..i] == es;
    }

    /**
     An index set request: the object's list is replaced and every table that changed is updated.  The list
     stays without duplicates exactly when the tags of the request are distinct, and lists and tables agree
     exactly when no tag is requested with two different data.
     */
    method SetIndexes(o: Id, request: Table)
      requires Valid()
      modifies `objects, `tables
      ensures TablesStrict(tables) && (ObjectsStrict(objects) <==> DistinctTags(request))
      ensures forall e :: e in ObjectTable(objects, o) <==> e in request
      ensures forall x: Id :: x != o ==> ObjectTable(objects, x) == ObjectTable(old(objects), x)
      ensures TwoWay(c, objects, tables) <==> OneDataPerTag(request)
      ensures Valid() <==> DistinctTags(request)
    {
      hide Applied, Mirrored, TwoWay, OneDataPerTag, DistinctTags;
      var indexes := Sort(request);
      var remote := ObjectTable(objects, o);
      MirroredIsTwoWay(c, objects, tables);
      SortOrdered(request);
      SortStrict(request);
      if indexes == remote {
        SetSame(request);
        return;
      }
      objects := objects[o := indexes];
      var inserted := SetDifference(indexes, remote, true);
      var removed := SetDifference(remote, indexes, false);
      UpdateAll(o, inserted, InsertData);
      ghost var t1 := tables;
      UpdateAll(o, removed, RemoveData);
      OrderedGrouped(indexes);
      SetTwoWay(c, old(objects), old(tables), t1, tables, o, indexes);
      SameOneData(request, indexes);
      SetStrict(c, old(objects), objects, tables, o, request);
    }

    /**
     An update-only request: the object's list gains the tags of the request, and the client inserts the
     object into their tables, without waiting, so that the insertions take effect in any order.  Of data
     requested twice for a tag the list keeps the smallest, the tables the last to arrive: they agree exactly
     when these are the same for every tag.
     */
    method UpdateIndexes(o: Id, request: Table, order: Table)
      requires Valid() && Reordered(request, order)
      modifies `objects, `tables
      ensures ObjectsStrict(objects) && TablesStrict(tables)
      ensures forall tag: Id :: DataOf(ObjectTable(objects, o), tag) ==
                if SmallestOf(request, tag).Some? then SmallestOf(request, tag)
                else DataOf(ObjectTable(old(objects), o), tag)
      ensures forall x: Id :: x != o ==> ObjectTable(objects, x) == ObjectTable(old(objects), x)
      ensures Applied(c, old(tables), tables, o, order, InsertData)
      ensures Mirrored(c, objects, tables) <==> LastIsSmallest(request, order)
      ensures Valid() <==> LastIsSmallest(request, order)
      ensures OneDataPerTag(request) ==> Valid()
    {
      hide Applied, Mirrored, LastIsSmallest, Reordered, OneDataPerTag;
      if OneDataPerTag(request) { OneDataAgrees(request, order); }
      var remote := ObjectTable(objects, o);
      var result := MergeUnique(Sort(request), remote);
      MergedData(request, remote);
      if result != remote {
        objects := objects[o := result];
      }
      UpdateAll(o, order, InsertData);
      UpdateMirrored(c, old(objects), old(tables), tables, o, request, order, result, objects);
    }
  }

  /** Two data for one tag, the larger one last: the list keeps 3, the table gets 5. */
  method ConflictingUpdate(config: Config, o: Id, tag: Id) returns (store: Store)
    requires ConfigOk(config)
    ensures fresh(store) && store.c == config && !Mirrored(config, store.objects, store.tables)
    ensures DataOf(ObjectTable(store.objects, o), tag) == Some(3)
    ensures Listed(config, store.tables, tag, config.shardOf(o), o) == Some(5)
  {
    store := new Store(config);
    var request := [Entry(tag, 3), Entry(tag, 5)];
    assert request[1..] == [Entry(tag, 5)] && request[1..][1..] == [];
    assert SmallestOf(request[1..], tag) == Some(5);
    assert LastOf(request, tag) == Some(5) && SmallestOf(request, tag) == Some(3);
    store.UpdateIndexes(o, request, request);
  }

  /** A set request with a tag twice: the list keeps both entries, and no table can list both data. */
  method RepeatedTag(config: Config, o: Id, tag: Id) returns (store: Store)
    requires ConfigOk(config)
    ensures fresh(store) && store.c == config && !ObjectsStrict(store.objects)
    ensures !TwoWay(config, store.objects, store.tables)
  {
    store := new Store(config);
    var request := [Entry(tag, 3), Entry(tag, 5)];
    assert request[0] in request && request[1] in request;
    store.SetIndexes(o, request);
  }

  lemma {:induction false} OrderedGrouped(t: Table)
    requires Ordered(t)
    ensures Grouped(t)
  {
  }

  lemma {:induction false} MergedData(request: Table, remote: Table)
    requires Strict(remote)
    ensures Strict(MergeUnique(Sort(request), remote))
    ensures forall x: Id :: DataOf(MergeUnique(Sort(request), remote), x) ==
              if SmallestOf(request, x).Some? then SmallestOf(request, x) else DataOf(remote, x)
  {
    SortOrdered(request);
    OrderedGrouped(Sort(request));
    MergeUniqueData(Sort(request), remote, 0);
    forall x: Id ensures DataOf(MergeUnique(Sort(request), remote), x) ==
                         if SmallestOf(request, x).Some? then SmallestOf(request, x) else DataOf(remote, x) {
      MergeUniqueData(Sort(request), remote, x);
      SortedSmallest(request, x);
    }
  }

  lemma {:induction false} UpdatedStrict(t: Table, t': Table, obj: Id, data: Data, action: Action)
    requires Updated(t, t', obj, data, action)
    ensures Strict(t')
  {
  }

  /** Not writing a table that did not change. */
  lemma {:induction false} Unwritten(c: Config, tables: Tables, id: TableId, t: Table, o: Id, es: Table, action: Action)
    requires c.count > 0 && t == if id in tables then tables[id] else []
    requires Applied(c, tables, tables[id := t], o, es, action)
    ensures Applied(c, tables, tables, o, es, action)
  {
  }

  lemma {:induction false} SameOneData(a: Table, b: Table)
    requires forall e :: e in a <==> e in b
    ensures OneDataPerTag(a) <==> OneDataPerTag(b)
  {
  }

  /** A request equal to what is stored has distinct tags. */
  lemma {:induction false} SetSame(request: Table)
    requires DistinctTags(request)
    ensures OneDataPerTag(request)
  {
  }

  /** The insertions and removals leave an object's listings as its new list has them, if that is possible at all. */
  lemma {:induction false} SetListing(now: Table, before: Table, tag: Id, d: Data)
    requires OneDataPerTag(now) && Grouped(now) && Strict(before)
    ensures var ins, rem := SetDifference(now, before, true), SetDifference(before, now, false);
            var listed := if Said(rem, RemoveData, tag).Some? then None
                          else if Said(ins, InsertData, tag).Some? then Said(ins, InsertData, tag).value
                          else DataOf(before, tag);
            listed == Some(d) <==> Entry(tag, d) in now
  {
    var ins, rem := SetDifference(now, before, true), SetDifference(before, now, false);
    DifferenceMembers(now, before);
    RemovedMembers(before, now);
    LastOfHas(ins, tag);
    LastOfHas(rem, tag);
    DataOfHas(before, tag);
    HasMember(now, tag);
    HasMember(rem, tag);
    HasMember(ins, tag);
    if Entry(tag, d) in now && LastOf(ins, tag).None? {
      assert Entry(tag, d) in before;
      DataOfMember(before, tag, d);
    }
  }

  lemma {:induction false} SetTwoWay(c: Config, objects: Objects, t0: Tables, t1: Tables, t2: Tables, o: Id, now: Table)
    requires ConfigOk(c) && TwoWay(c, objects, t0) && Grouped(now) && Strict(ObjectTable(objects, o))
    requires TablesStrict(t0) && TablesStrict(t2)
    requires Applied(c, t0, t1, o, SetDifference(now, ObjectTable(objects, o), true), InsertData)
    requires Applied(c, t1, t2, o, SetDifference(ObjectTable(objects, o), now, false), RemoveData)
    ensures TwoWay(c, objects[o := now], t2) <==> OneDataPerTag(now)
  {
    var before, home := ObjectTable(objects, o), c.shardOf(o);
    if OneDataPerTag(now) {
      forall x: Id, tag: Id, d: Data, s: nat | s < c.count
        ensures Entry(x, d) in IndexTable(c, t2, tag, s) <==>
                s == c.shardOf(x) && Entry(tag, d) in ObjectTable(objects[o := now], x)
      {
        ListedEntry(c, t2, tag, s, x, d);
        ListedEntry(c, t0, tag, s, x, d);
        if x == o && s == home {
          SetListing(now, before, tag, d);
          ListingFrom(c, objects, t0, tag, s, o);
        }
      }
    }
    if TwoWay(c, objects[o := now], t2) {
      forall a, b | a in now && b in now && a.index == b.index ensures a == b {
        assert Entry(a.index, a.data) == a && Entry(b.index, b.data) == b;
        ListedEntry(c, t2, a.index, home, o, a.data);
        ListedEntry(c, t2, a.index, home, o, b.data);
      }
    }
  }

  /** A store with a replaced list is valid exactly when the list came from distinct tags. */
  lemma {:induction false} SetStrict(c: Config, objects: Objects, objects': Objects, tables: Tables, o: Id,
                                     request: Table)
    requires ConfigOk(c) && ObjectsStrict(objects) && TablesStrict(tables) && objects' == objects[o := Sort(request)]
    requires TwoWay(c, objects', tables) <==> OneDataPerTag(request)
    ensures ObjectsStrict(objects') <==> DistinctTags(request)
    ensures ObjectsStrict(objects') && Mirrored(c, objects', tables) <==> DistinctTags(request)
  {
    SortStrict(request);
    assert objects'[o] == Sort(request);
    if DistinctTags(request) {
      DistinctOneData(request);
      MirroredIsTwoWay(c, objects', tables);
    }
  }

  lemma {:induction false} UpdateMirrored(c: Config, objects: Objects, t0: Tables, t1: Tables, o: Id, request: Table,
                                          order: Table, now: Table, objects': Objects)
    requires ConfigOk(c) && Mirrored(c, objects, t0) && Applied(c, t0, t1, o, order, InsertData)
    requires Reordered(request, order)
    requires forall tag: Id :: DataOf(now, tag) ==
               if SmallestOf(request, tag).Some? then SmallestOf(request, tag) else DataOf(ObjectTable(objects, o), tag)
    requires objects' == if now != ObjectTable(objects, o) then objects[o := now] else objects
    ensures Mirrored(c, objects', t1) <==> LastIsSmallest(request, order)
  {
    var home := c.shardOf(o);
    SameMembers(request, order);
    forall tag: Id ensures LastOf(order, tag).Some? <==> SmallestOf(request, tag).Some? {
      LastOfHas(order, tag);
      SmallestOfHas(request, tag);
    }
    assert ObjectTable(objects', o) == now;
    if Mirrored(c, objects', t1) {
      forall tag: Id ensures LastOf(order, tag) == SmallestOf(request, tag) {
        assert Listed(c, t1, tag, home, o) == DataOf(now, tag);
      }
    }
    if LastIsSmallest(request, order) {
      forall x: Id, tag: Id, s: nat | s < c.count
        ensures Listed(c, t1, tag, s, x) == if s == c.shardOf(x) then DataOf(ObjectTable(objects', x), tag) else None
      {
        assert Listed(c, t0, tag, s, x) == if s == c.shardOf(x) then DataOf(ObjectTable(objects, x), tag) else None;
      }
    }
  }
}
