/**
 The id table of one group: every joined state owns the keys from each of its ids
 up to the next id in the table, and the ring wraps around.
 */
module Ring {

  type Id = nat
  type State = nat

  datatype StateId = StateId(id: Id, st: State)

  type Table = seq<StateId>

  ghost predicate Sorted(t: Table) {
    forall i, j :: 0 <= i < j < |t| ==> t[i].id <= t[j].id
  }

  /** Equal ids belong to one state. */
  ghost predicate OneOwnerPerId(t: Table) {
    forall i, j :: 0 <= i < |t| && 0 <= j < |t| && t[i].id == t[j].id ==> t[i].st == t[j].st
  }

  ghost predicate WellFormed(t: Table) {
    Sorted(t) && OneOwnerPerId(t)
  }

  /** `e` has the greatest id not above the key, or the greatest id of all when every id is above it. */
  ghost predicate Owns(t: Table, key: Id, e: StateId) {
    && e in t
    && if e.id <= key then forall x :: x in t && x.id <= key ==> x.id <= e.id
       else forall x :: x in t ==> key < x.id <= e.id
  }

  /** The owner of a key is unique. */
  lemma {:induction false} OwnerUnique(t: Table, key: Id, e: StateId, f: StateId)
    requires OneOwnerPerId(t) && Owns(t, key, e) && Owns(t, key, f)
    ensures e == f
  {
  }

  // --------------------------------------------------------------------------
  // Sorting
  // --------------------------------------------------------------------------

  function Insert(e: StateId, t: Table): Table {
    if t == [] then [e]
    else if e.id <= t[0].id then [e] + t
    else [t[0]] + Insert(e, t[1..])
  }

  /** What `qsort` leaves. */
  function Sort(t: Table): Table {
    if t == [] then [] else Insert(t[0], Sort(t[1..]))
  }

  lemma {:induction false} InsertMultiset(e: StateId, t: Table)
    ensures multiset(Insert(e, t)) == multiset(t) + multiset{e}
  {
    if t != [] && e.id > t[0].id {
      InsertMultiset(e, t[1..]);
      assert t == [t[0]] + t[1..];
    }
  }

  lemma {:induction false} SortMultiset(t: Table)
    ensures multiset(Sort(t)) == multiset(t)
  {
    if t != [] {
      SortMultiset(t[1..]);
      InsertMultiset(t[0], Sort(t[1..]));
      assert t == [t[0]] + t[1..];
    }
  }

  lemma {:induction false} InsertSorted(e: StateId, t: Table)
    requires Sorted(t)
    ensures Sorted(Insert(e, t))
  {
    if t != [] && e.id > t[0].id {
      InsertSorted(e, t[1..]);
      InsertMultiset(e, t[1..]);
      var r := Insert(e, t[1..]);
      forall k | 0 <= k < |r| ensures t[0].id <= r[k].id {
        assert r[k] in multiset(r);
        assert r[k] in t[1..] || r[k] == e;
      }
    }
  }

  lemma {:induction false} SortSorted(t: Table)
    ensures Sorted(Sort(t))
  {
    if t != [] {
      SortSorted(t[1..]);
      InsertSorted(t[0], Sort(t[1..]));
    }
  }

  lemma {:induction false} SameMembers(a: Table, b: Table)
    requires multiset(a) == multiset(b)
    ensures forall x :: x in a <==> x in b
  {
    forall x ensures x in a <==> x in b {
      assert x in multiset(a) <==> x in multiset(b);
    }
  }

  lemma {:induction false} SameHead(a: Table, b: Table)
    requires WellFormed(a) && WellFormed(b) && a != [] && b != [] && forall x :: x in a <==> x in b
    ensures a[0] == b[0]
  {
    assert a[0] in a && b[0] in b;
    var k :| 0 <= k < |a| && a[k] == b[0];
    var m :| 0 <= m < |b| && b[m] == a[0];
  }

  lemma {:induction false} TailMultiset(a: Table)
    requires a != []
    ensures multiset(a[1..]) == multiset(a) - multiset{a[0]}
  {
    assert a == [a[0]] + a[1..];
  }

  lemma {:induction false} TailWellFormed(a: Table)
    requires WellFormed(a) && a != []
    ensures WellFormed(a[1..])
  {
  }

  /** A well-formed table is determined by its entries. */
  lemma {:induction false} SortedUnique(a: Table, b: Table)
    requires WellFormed(a) && WellFormed(b) && multiset(a) == multiset(b)
    ensures a == b
  {
    hide WellFormed;
    assert |a| == |multiset(a)| && |b| == |multiset(b)|;
    if a != [] {
      SameMembers(a, b);
      SameHead(a, b);
      TailMultiset(a);
      TailMultiset(b);
      TailWellFormed(a);
      TailWellFormed(b);
      SortedUnique(a[1..], b[1..]);
      assert a == [a[0]] + a[1..] && b == [b[0]] + b[1..];
    }
  }

  // --------------------------------------------------------------------------
  // Join and leave
  // --------------------------------------------------------------------------

  predicate HasId(t: Table, id: Id) {
    exists i :: 0 <= i < |t| && t[i].id == id
  }

  predicate HasState(t: Table, st: State) {
    exists i :: 0 <= i < |t| && t[i].st == st
  }

  /** The ids of a joining state that the table does not know yet; repeated ones are kept. */
  function Fresh(t: Table, st: State, ids: seq<Id>): Table {
    if ids == [] then []
    else
      var rest := Fresh(t, st, ids[..|ids| - 1]);
      if HasId(t, ids[|ids| - 1]) then rest else rest + [StateId(ids[|ids| - 1], st)]
  }

  function Joined(t: Table, st: State, ids: seq<Id>): Table {
    Sort(t + Fresh(t, st, ids))
  }

  /** The entries of the other states, in order. */
  function Others(t: Table, st: State): Table {
    if t == [] then []
    else Others(t[..|t| - 1], st) + (if t[|t| - 1].st != st then [t[|t| - 1]] else [])
  }

  function Left(t: Table, st: State): Table {
    Sort(Others(t, st))
  }

  lemma {:induction false} FreshMembers(t: Table, st: State, ids: seq<Id>)
    ensures forall x :: x in Fresh(t, st, ids) <==> x.st == st && x.id in ids && !HasId(t, x.id)
  {
    if ids != [] {
      FreshMembers(t, st, ids[..|ids| - 1]);
      assert ids == ids[..|ids| - 1] + [ids[|ids| - 1]];
    }
  }

  lemma {:induction false} FreshCount(t: Table, st: State, ids: seq<Id>, x: StateId)
    ensures multiset(Fresh(t, st, ids))[x] == if x.st == st && !HasId(t, x.id) then multiset(ids)[x.id] else 0
  {
    if ids != [] {
      FreshCount(t, st, ids[..|ids| - 1], x);
      assert ids == ids[..|ids| - 1] + [ids[|ids| - 1]];
    }
  }

  /** Every requested id that the table lacked is there as often as it was requested, and nothing else is new. */
  lemma {:induction false} JoinedCount(t: Table, st: State, ids: seq<Id>, x: StateId)
    ensures multiset(Joined(t, st, ids))[x] ==
            multiset(t)[x] + if x.st == st && !HasId(t, x.id) then multiset(ids)[x.id] else 0
  {
    hide HasId;
    SortMultiset(t + Fresh(t, st, ids));
    FreshCount(t, st, ids, x);
  }

  /** Every entry of another state is there as often as before, and nothing else. */
  lemma {:induction false} LeftCount(t: Table, st: State, x: StateId)
    ensures multiset(Left(t, st))[x] == if x.st != st then multiset(t)[x] else 0
  {
    SortMultiset(Others(t, st));
    OthersCount(t, st, x);
  }

  lemma {:induction false} OthersMembers(t: Table, st: State)
    ensures forall x :: x in Others(t, st) <==> x in t && x.st != st
  {
    if t != [] {
      OthersMembers(t[..|t| - 1], st);
      assert t == t[..|t| - 1] + [t[|t| - 1]];
    }
  }

  lemma {:induction false} OthersConcat(a: Table, b: Table, st: State)
    ensures Others(a + b, st) == Others(a, st) + Others(b, st)
  {
    if b == [] {
      assert a + b == a;
    } else {
      OthersConcat(a, b[..|b| - 1], st);
      assert (a + b)[..|a + b| - 1] == a + b[..|b| - 1];
    }
  }

  lemma {:induction false} OthersAll(t: Table, st: State)
    requires !HasState(t, st)
    ensures Others(t, st) == t
  {
    if t != [] {
      var p := t[..|t| - 1];
      forall i | 0 <= i < |p| ensures p[i].st != st { assert p[i] == t[i]; }
      OthersAll(p, st);
      assert t == p + [t[|t| - 1]];
    }
  }

  lemma {:induction false} OthersNone(t: Table, st: State)
    requires forall x :: x in t ==> x.st == st
    ensures Others(t, st) == []
  {
    if t != [] {
      assert t[|t| - 1] in t;
      OthersNone(t[..|t| - 1], st);
    }
  }

  /** What stays when a state leaves does not depend on the order of the table. */
  lemma {:induction false} OthersMultiset(a: Table, b: Table, st: State)
    requires multiset(a) == multiset(b)
    ensures multiset(Others(a, st)) == multiset(Others(b, st))
  {
    forall x ensures multiset(Others(a, st))[x] == multiset(Others(b, st))[x] {
      OthersCount(a, st, x);
      OthersCount(b, st, x);
    }
  }

  lemma {:induction false} OthersCount(t: Table, st: State, x: StateId)
    ensures multiset(Others(t, st))[x] == if x.st != st then multiset(t)[x] else 0
  {
    if t != [] {
      OthersCount(t[..|t| - 1], st, x);
      assert t == t[..|t| - 1] + [t[|t| - 1]];
    }
  }

  lemma {:induction false} JoinedMembers(t: Table, st: State, ids: seq<Id>)
    ensures forall x :: x in Joined(t, st, ids) <==> x in t || (x.st == st && x.id in ids && !HasId(t, x.id))
  {
    SortMultiset(t + Fresh(t, st, ids));
    SameMembers(Joined(t, st, ids), t + Fresh(t, st, ids));
    FreshMembers(t, st, ids);
  }

  lemma {:induction false} LeftMembers(t: Table, st: State)
    ensures forall x :: x in Left(t, st) <==> x in t && x.st != st
  {
    SortMultiset(Others(t, st));
    SameMembers(Left(t, st), Others(t, st));
    OthersMembers(t, st);
  }

  lemma {:induction false} OwnersOf(t: Table)
    requires forall x, y :: x in t && y in t && x.id == y.id ==> x.st == y.st
    ensures OneOwnerPerId(t)
  {
  }

  lemma {:induction false} JoinedWellFormed(t: Table, st: State, ids: seq<Id>)
    requires WellFormed(t)
    ensures WellFormed(Joined(t, st, ids))
  {
    SortSorted(t + Fresh(t, st, ids));
    JoinedMembers(t, st, ids);
    OwnersOf(Joined(t, st, ids));
  }

  lemma {:induction false} LeftWellFormed(t: Table, st: State)
    requires WellFormed(t)
    ensures WellFormed(Left(t, st))
  {
    SortSorted(Others(t, st));
    LeftMembers(t, st);
    OwnersOf(Left(t, st));
  }

  /** A join followed by that state's leave restores the table exactly. */
  lemma {:induction false} JoinLeave(t: Table, st: State, ids: seq<Id>)
    requires WellFormed(t) && !HasState(t, st)
    ensures Left(Joined(t, st, ids), st) == t
  {
    var added, j := Fresh(t, st, ids), Joined(t, st, ids);
    JoinedWellFormed(t, st, ids);
    LeftWellFormed(j, st);
    SortMultiset(t + added);
    SortMultiset(Others(j, st));
    OthersMultiset(j, t + added, st);
    OthersConcat(t, added, st);
    OthersAll(t, st);
    FreshMembers(t, st, ids);
    OthersNone(added, st);
    SortedUnique(Left(j, st), t);
  }

  /** A join changes the owner of a key only to the joining state. */
  lemma {:induction false} JoinDisruption(t: Table, st: State, ids: seq<Id>, key: Id, e: StateId, f: StateId)
    requires WellFormed(t) && Owns(t, key, e) && Owns(Joined(t, st, ids), key, f)
    ensures f == e || (f.st == st && f !in t)
  {
    JoinedMembers(t, st, ids);
    if f in t {
      assert Owns(t, key, f);
      OwnerUnique(t, key, e, f);
    }
  }

  /** A leave changes only the owner of keys that the leaving state owned. */
  lemma {:induction false} LeaveDisruption(t: Table, st: State, key: Id, e: StateId, f: StateId)
    requires WellFormed(t) && Owns(t, key, e) && Owns(Left(t, st), key, f)
    ensures f == e <==> e.st != st
  {
    LeftMembers(t, st);
    LeftWellFormed(t, st);
    if e.st != st {
      assert Owns(Left(t, st), key, e);
      OwnerUnique(Left(t, st), key, e, f);
    }
  }
}
