/**
 Secondary index tables as sorted sequences, and the standard algorithms that the
 index code applies to them.
 */
module IndexTables {
  import opened Basics

  type Id = nat
  /** Data attached to an entry; its order by size and contents is total. */
  type Data = nat

  datatype Entry = Entry(index: Id, data: Data)

  type Table = seq<Entry>

  /** Sorted by index, without duplicates. */
  ghost predicate Strict(t: Table) {
    forall i, j :: 0 <= i < j < |t| ==> t[i].index < t[j].index
  }

  ghost predicate Has(t: Table, x: Id) {
    exists i :: 0 <= i < |t| && t[i].index == x
  }

  /** Either comparator: by index alone, or by index and then data. */
  predicate Less(a: Entry, b: Entry, withData: bool) {
    a.index < b.index || (withData && a.index == b.index && a.data < b.data)
  }

  lemma {:induction false} StrictTail(t: Table)
    requires Strict(t) && t != []
    ensures Strict(t[1..]) && !Has(t[1..], t[0].index)
    ensures forall x :: x in t[1..] ==> t[0].index < x.index
    ensures t == [t[0]] + t[1..]
  {
  }

  lemma {:induction false} StrictCons(e: Entry, t: Table)
    requires Strict(t) && forall x :: x in t ==> e.index < x.index
    ensures Strict([e] + t)
  {
  }

  lemma {:induction false} HasMember(t: Table, x: Id)
    ensures Has(t, x) <==> exists e :: e in t && e.index == x
  {
  }

  /** The data that a table holds for an index; with repeated indexes, the first one. */
  function DataOf(t: Table, x: Id): Option<Data> {
    if t == [] then None
    else if t[0].index == x then Some(t[0].data)
    else DataOf(t[1..], x)
  }

  /** The data of the last entry for an index. */
  function LastOf(t: Table, x: Id): Option<Data> {
    if t == [] then None
    else if t[|t| - 1].index == x then Some(t[|t| - 1].data)
    else LastOf(t[..|t| - 1], x)
  }

  /** The smallest data that a list of entries has for an index. */
  function SmallestOf(t: Table, x: Id): Option<Data> {
    if t == [] then None else Smaller(if t[0].index == x then Some(t[0].data) else None, SmallestOf(t[1..], x))
  }

  function Smaller(a: Option<Data>, b: Option<Data>): Option<Data> {
    if a.None? then b else if b.None? || a.value <= b.value then a else b
  }

  lemma {:induction false} DataOfHas(t: Table, x: Id)
    ensures DataOf(t, x).Some? <==> Has(t, x)
    ensures DataOf(t, x).Some? ==> Entry(x, DataOf(t, x).value) in t
  {
    HasMember(t, x);
    if t != [] {
      assert t == [t[0]] + t[1..];
      DataOfHas(t[1..], x);
      HasMember(t[1..], x);
    }
  }

  lemma {:induction false} LastOfHas(t: Table, x: Id)
    ensures LastOf(t, x).Some? <==> Has(t, x)
    ensures LastOf(t, x).Some? ==> Entry(x, LastOf(t, x).value) in t
  {
    HasMember(t, x);
    if t != [] {
      var p := t[..|t| - 1];
      assert t == p + [t[|t| - 1]];
      LastOfHas(p, x);
      HasMember(p, x);
    }
  }

  lemma {:induction false} SmallestOfHas(t: Table, x: Id)
    ensures SmallestOf(t, x).Some? <==> Has(t, x)
    ensures SmallestOf(t, x).Some? ==> Entry(x, SmallestOf(t, x).value) in t
    ensures forall e :: e in t && e.index == x ==> SmallestOf(t, x).Some? && SmallestOf(t, x).value <= e.data
  {
    HasMember(t, x);
    if t != [] {
      assert t == [t[0]] + t[1..];
      SmallestOfHas(t[1..], x);
      HasMember(t[1..], x);
    }
  }

  // --------------------------------------------------------------------------
  // std::sort
  // --------------------------------------------------------------------------

  function Insert(e: Entry, t: Table): Table {
    if t == [] || !Less(t[0], e, true) then [e] + t else [t[0]] + Insert(e, t[1..])
  }

  function Sort(t: Table): Table {
    if t == [] then [] else Insert(t[0], Sort(t[1..]))
  }

  /** Tags that are all different. */
  ghost predicate DistinctTags(t: Table) {
    forall i, j :: 0 <= i < j < |t| ==> t[i].index != t[j].index
  }

  /** Sorted by index and data, with repetitions. */
  ghost predicate Ordered(t: Table) {
    forall i, j :: 0 <= i < j < |t| ==> !Less(t[j], t[i], true)
  }

  lemma {:induction false} OrderedTail(t: Table)
    requires Ordered(t) && t != []
    ensures Ordered(t[1..]) && t == [t[0]] + t[1..]
    ensures forall x :: x in t[1..] ==> !Less(x, t[0], true)
  {
  }

  lemma {:induction false} OrderedCons(e: Entry, t: Table)
    requires Ordered(t) && forall x :: x in t ==> !Less(x, e, true)
    ensures Ordered([e] + t)
  {
  }

  lemma {:induction false} InsertOrdered(e: Entry, t: Table)
    requires Ordered(t)
    ensures Ordered(Insert(e, t)) && forall x :: x in Insert(e, t) <==> x == e || x in t
  {
    if t != [] {
      OrderedTail(t);
      if !Less(t[0], e, true) {
        OrderedCons(e, t);
      } else {
        InsertOrdered(e, t[1..]);
        OrderedCons(t[0], Insert(e, t[1..]));
      }
    }
  }

  /** Sorting keeps the entries, whatever the request. */
  lemma {:induction false} SortOrdered(t: Table)
    ensures Ordered(Sort(t)) && forall x :: x in Sort(t) <==> x in t
  {
    if t != [] {
      SortOrdered(t[1..]);
      assert t == [t[0]] + t[1..];
      InsertOrdered(t[0], Sort(t[1..]));
    }
  }

  /** In a sorted list the first entry of an index has the smallest data. */
  lemma {:induction false} OrderedSmallest(t: Table, x: Id)
    requires Ordered(t)
    ensures DataOf(t, x) == SmallestOf(t, x)
  {
    if t != [] {
      OrderedTail(t);
      OrderedSmallest(t[1..], x);
      SmallestOfHas(t[1..], x);
    }
  }

  lemma {:induction false} SameSmallest(a: Table, b: Table, x: Id)
    requires forall e :: e in a <==> e in b
    ensures SmallestOf(a, x) == SmallestOf(b, x)
  {
    SmallestOfHas(a, x);
    SmallestOfHas(b, x);
    HasMember(a, x);
    HasMember(b, x);
  }

  /** Sorting puts the smallest data of each tag first. */
  lemma {:induction false} SortedSmallest(t: Table, x: Id)
    ensures DataOf(Sort(t), x) == SmallestOf(t, x)
  {
    SortOrdered(t);
    OrderedSmallest(Sort(t), x);
    SameSmallest(Sort(t), t, x);
  }

  function CountTag(t: Table, x: Id): nat {
    if t == [] then 0 else (if t[0].index == x then 1 else 0) + CountTag(t[1..], x)
  }

  lemma {:induction false} InsertCount(e: Entry, t: Table, x: Id)
    ensures CountTag(Insert(e, t), x) == CountTag(t, x) + (if e.index == x then 1 else 0)
  {
    if t == [] || !Less(t[0], e, true) {
      assert ([e] + t)[1..] == t;
    } else {
      InsertCount(e, t[1..], x);
      assert ([t[0]] + Insert(e, t[1..]))[1..] == Insert(e, t[1..]);
    }
  }

  lemma {:induction false} SortCount(t: Table, x: Id)
    ensures CountTag(Sort(t), x) == CountTag(t, x)
  {
    if t != [] {
      SortCount(t[1..], x);
      InsertCount(t[0], Sort(t[1..]), x);
    }
  }

  lemma {:induction false} CountAt(t: Table, i: nat)
    requires i < |t|
    ensures CountTag(t, t[i].index) >= 1
  {
    if i > 0 { CountAt(t[1..], i - 1); }
  }

  lemma {:induction false} CountTwice(t: Table, i: nat, j: nat)
    requires i < j < |t| && t[i].index == t[j].index
    ensures CountTag(t, t[i].index) >= 2
  {
    if i > 0 { CountTwice(t[1..], i - 1, j - 1); } else { CountAt(t[1..], j - 1); }
  }

  lemma {:induction false} CountOnce(t: Table, x: Id)
    requires DistinctTags(t)
    ensures CountTag(t, x) <= 1
    ensures CountTag(t, x) == 1 ==> Has(t, x)
  {
    HasMember(t, x);
    if t != [] {
      assert t == [t[0]] + t[1..];
      CountOnce(t[1..], x);
      HasMember(t[1..], x);
      assert forall e :: e in t[1..] ==> e.index != t[0].index;
    }
  }

  /** Sorting a request gives a table without duplicates exactly when its tags are distinct. */
  lemma {:induction false} SortStrict(t: Table)
    ensures Strict(Sort(t)) <==> DistinctTags(t)
  {
    var r := Sort(t);
    SortOrdered(t);
    if DistinctTags(t) {
      forall i, j | 0 <= i < j < |r| ensures r[i].index < r[j].index {
        if r[i].index == r[j].index {
          CountTwice(r, i, j);
          SortCount(t, r[i].index);
          CountOnce(t, r[i].index);
        }
      }
    }
    if Strict(r) {
      forall i, j | 0 <= i < j < |t| ensures t[i].index != t[j].index {
        if t[i].index == t[j].index {
          CountTwice(t, i, j);
          SortCount(t, t[i].index);
          CountOnce(r, t[i].index);
        }
      }
    }
  }

  // --------------------------------------------------------------------------
  // std::set_difference
  // --------------------------------------------------------------------------

  function SetDifference(a: Table, b: Table, withData: bool): Table {
    if a == [] then []
    else if b == [] then a
    else if Less(a[0], b[0], withData) then [a[0]] + SetDifference(a[1..], b, withData)
    else if Less(b[0], a[0], withData) then SetDifference(a, b[1..], withData)
    else SetDifference(a[1..], b[1..], withData)
  }

  /**
   By index and data, whatever the repetitions: nothing but entries of `a`, and all of those that `b` does
   not have.
   */
  lemma {:induction false} DifferenceMembers(a: Table, b: Table)
    ensures forall x :: x in SetDifference(a, b, true) ==> x in a
    ensures forall x :: x in a && x !in b ==> x in SetDifference(a, b, true)
  {
    if a != [] && b != [] {
      assert a == [a[0]] + a[1..] && b == [b[0]] + b[1..];
      if Less(a[0], b[0], true) {
        DifferenceMembers(a[1..], b);
      } else if Less(b[0], a[0], true) {
        DifferenceMembers(a, b[1..]);
      } else {
        DifferenceMembers(a[1..], b[1..]);
      }
    }
  }

  /** Sorted by index, with repetitions. */
  ghost predicate Grouped(t: Table) {
    forall i, j :: 0 <= i < j < |t| ==> t[i].index <= t[j].index
  }

  lemma {:induction false} GroupedTail(t: Table)
    requires Grouped(t) && t != []
    ensures Grouped(t[1..]) && t == [t[0]] + t[1..]
    ensures forall x :: x in t[1..] ==> t[0].index <= x.index
  {
  }

  lemma {:induction false} GroupedCons(e: Entry, t: Table)
    requires Grouped(t) && forall x :: x in t ==> e.index <= x.index
    ensures Grouped([e] + t)
  {
  }

  lemma {:induction false} HasTail(t: Table, x: Id)
    requires t != []
    ensures Has(t, x) <==> t[0].index == x || Has(t[1..], x)
  {
    assert t == [t[0]] + t[1..];
    HasMember(t, x);
    HasMember(t[1..], x);
  }

  /** By index: exactly the entries whose index the other list does not have. */
  lemma {:induction false} RemovedMembers(a: Table, b: Table)
    requires Strict(a) && Grouped(b)
    ensures Strict(SetDifference(a, b, false))
    ensures forall x :: x in SetDifference(a, b, false) <==> x in a && !Has(b, x.index)
  {
    if a != [] && b != [] {
      StrictTail(a);
      GroupedTail(b);
      forall x: Id ensures Has(b, x) <==> b[0].index == x || Has(b[1..], x) { HasTail(b, x); }
      HasMember(b[1..], a[0].index);
      if Less(a[0], b[0], false) {
        RemovedMembers(a[1..], b);
        StrictCons(a[0], SetDifference(a[1..], b, false));
      } else if Less(b[0], a[0], false) {
        RemovedMembers(a, b[1..]);
      } else {
        RemovedMembers(a[1..], b[1..]);
      }
    }
  }

  // --------------------------------------------------------------------------
  // std::inplace_merge followed by std::unique
  // --------------------------------------------------------------------------

  /** A stable merge by index: on a tie the first list goes first. */
  function Merge(a: Table, b: Table): Table {
    if a == [] then b
    else if b == [] then a
    else if b[0].index < a[0].index then [b[0]] + Merge(a, b[1..])
    else [a[0]] + Merge(a[1..], b)
  }

  /** Keeps the first of each run of equal indexes. */
  function Unique(t: Table): Table
    decreases |t|
  {
    if |t| < 2 then t
    else if t[0].index == t[1].index then Unique([t[0]] + t[2..])
    else [t[0]] + Unique(t[1..])
  }

  function MergeUnique(a: Table, b: Table): Table {
    Unique(Merge(a, b))
  }

  lemma {:induction false} MergeGrouped(a: Table, b: Table)
    requires Grouped(a) && Grouped(b)
    ensures Grouped(Merge(a, b)) && forall x :: x in Merge(a, b) <==> x in a || x in b
  {
    if a != [] && b != [] {
      GroupedTail(a);
      GroupedTail(b);
      if b[0].index < a[0].index {
        MergeGrouped(a, b[1..]);
        GroupedCons(b[0], Merge(a, b[1..]));
      } else {
        MergeGrouped(a[1..], b);
        GroupedCons(a[0], Merge(a[1..], b));
      }
    }
  }

  lemma {:induction false} AboveNone(t: Table, x: Id)
    requires Grouped(t) && (t == [] || x < t[0].index)
    ensures DataOf(t, x) == None
  {
    DataOfHas(t, x);
  }

  /** On a tie the first list is found first. */
  lemma {:induction false} MergeData(a: Table, b: Table, x: Id)
    requires Grouped(a) && Grouped(b)
    ensures DataOf(Merge(a, b), x) == if DataOf(a, x).Some? then DataOf(a, x) else DataOf(b, x)
  {
    if a != [] && b != [] {
      GroupedTail(a);
      GroupedTail(b);
      var m := Merge(a, b);
      if b[0].index < a[0].index {
        assert m[1..] == Merge(a, b[1..]);
        MergeData(a, b[1..], x);
        AboveNone(a, b[0].index);
      } else {
        assert m[1..] == Merge(a[1..], b);
        MergeData(a[1..], b, x);
      }
    }
  }

  lemma {:induction false} UniqueData(t: Table, x: Id)
    requires Grouped(t)
    ensures DataOf(Unique(t), x) == DataOf(t, x)
    ensures Strict(Unique(t)) && forall e :: e in Unique(t) ==> e in t
    decreases |t|
  {
    if |t| >= 2 {
      if t[0].index == t[1].index {
        var u := [t[0]] + t[2..];
        assert u[1..] == t[1..][1..];
        UniqueData(u, x);
      } else {
        GroupedTail(t);
        UniqueData(t[1..], x);
        assert forall e :: e in t[1..] ==> t[0].index < e.index by { GroupedTail(t[1..]); }
        StrictCons(t[0], Unique(t[1..]));
        assert ([t[0]] + Unique(t[1..]))[1..] == Unique(t[1..]);
      }
    }
  }

  /** The merge is strictly sorted and keeps, for each index, the first entry of the first list that has one. */
  lemma {:induction false} MergeUniqueData(a: Table, b: Table, x: Id)
    requires Grouped(a) && Grouped(b)
    ensures Strict(MergeUnique(a, b))
    ensures DataOf(MergeUnique(a, b), x) == if DataOf(a, x).Some? then DataOf(a, x) else DataOf(b, x)
  {
    MergeGrouped(a, b);
    MergeData(a, b, x);
    UniqueData(Merge(a, b), x);
  }

  // --------------------------------------------------------------------------
  // Updating one index table
  // --------------------------------------------------------------------------

  datatype Action = InsertData | RemoveData

  /** `std::lower_bound`: the first position whose index is not smaller. */
  method LowerBound(t: Table, x: Id) returns (i: nat)
    requires Strict(t)
    ensures i <= |t| && (forall j :: 0 <= j < i ==> t[j].index < x) && (forall j :: i <= j < |t| ==> x <= t[j].index)
  {
    i := 0;
    var n: nat := |t|;
    while i < n
      invariant i <= n <= |t|
      invariant forall j :: 0 <= j < i ==> t[j].index < x
      invariant forall j :: n <= j < |t| ==> x <= t[j].index
    {
      var mid := (i + n) / 2;
      if t[mid].index < x {
        i := mid + 1;
      } else {
        n := mid;
      }
    }
  }

  /** What an update leaves in a table: the object with the new data, or not at all; other objects stay. */
  ghost predicate Updated(t: Table, t': Table, obj: Id, data: Data, action: Action) {
    && Strict(t')
    && forall x :: x in t' <==> (x in t && x.index != obj) || (action.InsertData? && x == Entry(obj, data))
  }

  /** `convert_index_table` on the unpacked table. */
  method ConvertIndexTable(table: Table, obj: Id, data: Data, action: Action) returns (t: Table)
    requires Strict(table)
    ensures Updated(table, t, obj, data, action)
  {
    t := table;
    var i := LowerBound(t, obj);
    var found := i < |t| && t[i].index == obj;
    if found {
      if action.InsertData? {
        if t[i].data != data {
          t := t[i := Entry(obj, data)];
        }
      } else {
        t := t[..i] + t[i + 1..];
      }
    } else if action.InsertData? {
      t := t[..i] + [Entry(obj, data)] + t[i..];
    }
    ghost var was, rest := if found then [table[i]] else [], if found then table[i + 1..] else table[i..];
    ghost var mid := if action.InsertData? then [Entry(obj, data)] else [];
    assert table == table[..i] + was + rest;
    assert t == table[..i] + mid + rest;
    SplitAround(table, i, obj, was, rest);
    Replaced(table[..i], was, mid, rest, obj);
  }

  /** The parts of a table before and behind an object. */
  lemma {:induction false} SplitAround(t: Table, i: nat, obj: Id, was: Table, rest: Table)
    requires Strict(t) && i <= |t| && t == t[..i] + was + rest
    requires (forall j :: 0 <= j < i ==> t[j].index < obj) && (forall j :: i <= j < |t| ==> obj <= t[j].index)
    requires was == if i < |t| && t[i].index == obj then [t[i]] else []
    ensures Strict(t[..i]) && Strict(rest)
    ensures (forall x :: x in t[..i] ==> x.index < obj) && (forall x :: x in rest ==> obj < x.index)
  {
    var n := i + |was|;
    assert rest == t[n..];
    forall x | x in rest ensures obj < x.index {
      var k :| 0 <= k < |rest| && rest[k] == x;
      assert t[n + k] == x;
      assert t[i].index <= t[n + k].index;
    }
  }

  /** Replacing what a table has for one object. */
  lemma {:induction false} Replaced(a: Table, was: Table, mid: Table, b: Table, obj: Id)
    requires Strict(a) && Strict(b) && |mid| <= 1
    requires (forall x :: x in was ==> x.index == obj) && (forall x :: x in mid ==> x.index == obj)
    requires (forall x :: x in a ==> x.index < obj) && (forall x :: x in b ==> obj < x.index)
    ensures Strict(a + mid + b)
    ensures forall x :: x in a + mid + b <==> (x in a + was + b && x.index != obj) || x in mid
  {
  }
}
