/**
 The routing table of a node: one id table per group, the states that joined it,
 and the group's reference count.
 */
module RouteTable {
  import opened Basics
  import opened Ring

  datatype Group = Group(ids: Table, refcnt: int, states: seq<State>)

  type Groups = map<nat, Group>

  /** The count is the number of joined states, and each of them owns an id. */
  ghost predicate GroupOk(g: Group) {
    && WellFormed(g.ids)
    && g.refcnt == |g.states| > 0
    && (forall i, j :: 0 <= i < j < |g.states| ==> g.states[i] != g.states[j])
    && (forall e :: e in g.ids ==> e.st in g.states)
    && (forall s :: s in g.states ==> HasState(g.ids, s))
  }

  ghost predicate TableOk(groups: Groups) {
    && (forall g :: g in groups ==> GroupOk(groups[g]))
    && (forall g, h, s :: g in groups && h in groups && s in groups[g].states && s in groups[h].states ==> g == h)
  }

  predicate Registered(groups: Groups, st: State) {
    exists g :: g in groups && st in groups[g].states
  }

  /** A group in use has an id, so a lookup never meets an empty table. */
  lemma {:induction false} NeverEmpty(groups: Groups, g: nat)
    requires TableOk(groups) && g in groups
    ensures |groups[g].ids| > 0
  {
    assert groups[g].states[0] in groups[g].states;
  }

  /** `__dnet_idc_search`: binary search that wraps around. */
  method Search(ids: Table, key: Id) returns (i: int)
    requires WellFormed(ids) && |ids| > 0
    ensures 0 <= i < |ids| && Owns(ids, key, ids[i])
  {
    var low, high := -1, |ids|;
    i := -1;
    while high - low > 1
      invariant -1 <= low < high <= |ids|
      invariant low >= 0 ==> ids[low].id < key
      invariant high < |ids| ==> ids[high].id > key
    {
      i := low + (high - low) / 2;
      if ids[i].id < key {
        low := i;
      } else if ids[i].id > key {
        high := i;
      } else {
        Match(ids, key, i);
        return;
      }
    }
    i := high - 1;
    if i == -1 {
      i := |ids| - 1;
    }
    Gap(ids, key, high);
  }

  lemma {:induction false} Match(ids: Table, key: Id, i: nat)
    requires i < |ids| && ids[i].id == key
    ensures Owns(ids, key, ids[i])
  {
  }

  lemma {:induction false} Gap(ids: Table, key: Id, high: nat)
    requires Sorted(ids) && 0 < |ids| && high <= |ids|
    requires high > 0 ==> ids[high - 1].id <= key
    requires high < |ids| ==> ids[high].id > key
    ensures Owns(ids, key, ids[if high == 0 then |ids| - 1 else high - 1])
  {
  }

  /** `destination`: the linear scan over the sorted routes of a group. */
  method Destination(routes: Table, key: Id) returns (ret: StateId)
    requires WellFormed(routes) && |routes| > 0
    ensures Owns(routes, key, ret)
  {
    ret := routes[|routes| - 1];
    var i := 0;
    while i < |routes|
      invariant i <= |routes|
      invariant forall j :: 0 <= j < i ==> routes[j].id <= key
      invariant ret == routes[if i == 0 then |routes| - 1 else i - 1]
    {
      if key >= routes[i].id {
        ret := routes[i];
      } else {
        break;
      }
      i := i + 1;
    }
    Gap(routes, key, i);
  }

  /** The binary search and the linear scan choose the same owner. */
  method SameOwner(ids: Table, key: Id) returns (fast: StateId, slow: StateId)
    requires WellFormed(ids) && |ids| > 0
    ensures fast == slow && Owns(ids, key, fast)
  {
    var i := Search(ids, key);
    fast := ids[i];
    slow := Destination(ids, key);
    OwnerUnique(ids, key, fast, slow);
  }

  /** The compaction loop of `dnet_idc_remove_ids`, without the sort that follows. */
  method RemoveIds(table: Table, st: State) returns (r: Table)
    ensures r == Others(table, st)
  {
    var ids, i, pos := table, 0, 0;
    while i < |table|
      invariant pos <= i <= |table| == |ids|
      invariant ids[..pos] == Others(table[..i], st) && ids[i..] == table[i..]
    {
      assert table[..i + 1][..i] == table[..i];
      assert ids[i] == table[i..][0];
      if ids[i].st != st {
        ids := ids[pos := ids[i]];
        assert ids[..pos + 1] == ids[..pos] + [table[i]];
        pos := pos + 1;
      }
      assert ids[i + 1..] == table[i..][1..];
      i := i + 1;
    }
    assert table[..i] == table;
    r := ids[..pos];
  }

  /** The loop that copies the ids the table does not know yet. */
  method AddIds(table: Table, st: State, ids: seq<Id>) returns (r: Table)
    ensures r == Fresh(table, st, ids)
  {
    r := [];
    var i := 0;
    while i < |ids|
      invariant i <= |ids| && r == Fresh(table, st, ids[..i])
    {
      assert ids[..i + 1][..i] == ids[..i];
      if !HasId(table, ids[i]) {
        r := r + [StateId(ids[i], st)];
      }
      i := i + 1;
    }
    assert ids[..i] == ids;
  }

  class Routes {
    var groups: Groups

    ghost predicate Valid()
      reads this
    {
      TableOk(groups)
    }

    constructor ()
      ensures Valid() && groups == map[]
    {
      groups := map[];
    }

    /**
     Finds or creates the group and takes a reference: no id and no state of any group changes, and giving
     the reference back leaves the table as it was.
     */
    method GroupGet(group: nat)
      modifies this
      ensures group in groups && (old(Valid()) ==> Put(groups, group) == old(groups))
      ensures forall g :: g in old(groups) ==>
                g in groups && groups[g].ids == old(groups)[g].ids && groups[g].states == old(groups)[g].states
      ensures groups == Got(old(groups), group) && group in groups && groups == old(groups)[group := groups[group]]
      ensures groups[group] == Base(old(groups), group).(refcnt := Base(old(groups), group).refcnt + 1)
    {
      if Valid() { GetPut(groups, group); }
      var g := if group in groups then groups[group] else Group([], 0, []);
      groups := groups[group := g.(refcnt := g.refcnt + 1)];
    }

    /** `dnet_group_put`: undoes `dnet_group_get`, whichever table that was called on. */
    method GroupPut(group: nat)
      requires group in groups
      modifies this
      ensures group in groups <==> old(groups)[group].refcnt != 1
      ensures groups - {group} == old(groups) - {group}
      ensures group in groups ==>
                && groups[group].ids == old(groups)[group].ids && groups[group].states == old(groups)[group].states
                && groups[group].refcnt == old(groups)[group].refcnt - 1
      ensures forall before :: TableOk(before) && old(groups) == Got(before, group) ==> groups == before
      ensures groups == Put(old(groups), group)
    {
      hide TableOk;
      forall before | TableOk(before) && groups == Got(before, group)
        ensures Put(groups, group) == before
      {
        GetPut(before, group);
      }
      var g := groups[group].(refcnt := groups[group].refcnt - 1);
      if g.refcnt == 0 {
        groups := groups - {group};
      } else {
        groups := groups[group := g];
      }
    }

    /**
     `dnet_idc_create`.  It fails, restoring the table exactly, when no id is new or the new connection
     cannot be set up.
     */
    method Join(group: nat, st: State, ids: seq<Id>, setup: bool) returns (ok: bool)
      requires Valid() && !Registered(groups, st)
      modifies this
      ensures Valid()
      ensures ok <==> setup && SomeNew(Base(old(groups), group).ids, ids)
      ensures !ok ==> groups == old(groups)
      ensures ok ==> JoinedBy(old(groups), groups, group, st, ids)
      ensures ok ==> groups == old(groups)[group := JoinedGroup(Base(old(groups), group), st, ids)]
    {
      hide TableOk, Registered, Joined, JoinedBy, WellFormed, Put, Got, Base;
      NotIn(groups, group, st);
      GroupGet(group);
      var g := groups[group];
      var added := AddIds(g.ids, st, ids);
      FreshSome(g.ids, st, ids);
      if added == [] {
        GroupPut(group);
        return false;
      }
      groups := groups[group := g.(ids := Sort(g.ids + added), states := g.states + [st])];
      if !setup {
        JoinedIs(g.ids, st, ids);
        JoinLeave(g.ids, st, ids);
        var left := RemoveIds(groups[group].ids, st);
        groups := groups[group := g.(ids := Sort(left))];
        assert groups == old(groups)[group := g] == Got(old(groups), group);
        GroupPut(group);
        return false;
      }
      JoinKeeps(old(groups), group, st, ids);
      JoinIs(old(groups), group, st, ids);
      JoinedIs(g.ids, st, ids);
      assert groups == old(groups)[group := JoinedGroup(Base(old(groups), group), st, ids)];
      ok := true;
    }

    /** `dnet_idc_destroy_nolock`: the leaving state's ids go, and the group with its last state. */
    method Leave(st: State)
      requires Valid()
      modifies this
      ensures Valid() && !Registered(groups, st)
      ensures !Registered(old(groups), st) ==> groups == old(groups)
      ensures forall g :: g in old(groups) && st in old(groups)[g].states ==> LeftBy(old(groups), groups, g, st)
      ensures forall g :: g in old(groups) && st in old(groups)[g].states ==> groups == LeftGroups(old(groups), g, st)
    {
      hide LeftBy, LeftGroups;
      if !Registered(groups, st) {
        return;
      }
      var group :| group in groups && st in groups[group].states;
      assert forall g :: g in groups && st in groups[g].states ==> g == group;
      LeaveGroup(group, st);
    }

    method LeaveGroup(group: nat, st: State)
      requires Valid() && group in groups && st in groups[group].states
      modifies this
      ensures Valid() && !Registered(groups, st)
      ensures LeftBy(old(groups), groups, group, st) && groups == LeftGroups(old(groups), group, st)
    {
      hide TableOk, Registered, Joined, WellFormed, Put, GroupOk, LeftBy;
      LeaveKeeps(groups, group, st);
      LeaveIs(groups, group, st);
      var g := groups[group];
      var left := RemoveIds(g.ids, st);
      groups := groups[group := g.(ids := Sort(left), states := Removed(g.states, st))];
      GroupPut(group);
    }

    /** The lookup of a key: its owner, if the group exists. */
    method Owner(group: nat, key: Id) returns (r: Option<StateId>)
      requires Valid()
      ensures r.Some? <==> group in groups
      ensures r.Some? ==> Owns(groups[group].ids, key, r.value)
    {
      if group !in groups {
        return None;
      }
      NeverEmpty(groups, group);
      var i := Search(groups[group].ids, key);
      r := Some(groups[group].ids[i]);
    }
  }

  ghost predicate OtherGroupsKept(before: Groups, after: Groups, group: nat) {
    && (forall g :: g != group ==> (g in after <==> g in before))
    && (forall g :: g != group && g in before && g in after ==> after[g] == before[g])
  }

  /**
   What a successful join does: the group has, in order, its old entries and every requested id it lacked, as
   often as it was requested; the state is its last; and a key has a new owner only in the joining state.
   */
  ghost predicate JoinedBy(before: Groups, after: Groups, group: nat, st: State, ids: seq<Id>) {
    && OtherGroupsKept(before, after, group) && group in after
    && var old', new' := Base(before, group), after[group];
    && Sorted(new'.ids) && new'.states == old'.states + [st] && new'.refcnt == old'.refcnt + 1
    && (forall e :: multiset(new'.ids)[e] ==
          multiset(old'.ids)[e] + if e.st == st && !HasId(old'.ids, e.id) then multiset(ids)[e.id] else 0)
    && (forall key, e, f :: Owns(old'.ids, key, e) && Owns(new'.ids, key, f) ==>
          f == e || (f.st == st && f !in old'.ids))
  }

  /**
   A group that a state has left has, in order, exactly the entries of other states, and the states but the
   leaving one in their order.  Every key that the leaving state did not own keeps its owner.
   */
  ghost predicate GroupLeft(g: Group, g': Group, st: State) {
    && Sorted(g'.ids) && g'.refcnt == g.refcnt - 1 && OneOut(g.states, g'.states, st)
    && (forall e :: multiset(g'.ids)[e] == if e.st != st then multiset(g.ids)[e] else 0)
    && (forall key, e, f :: Owns(g.ids, key, e) && Owns(g'.ids, key, f) ==> (f == e <==> e.st != st))
  }

  ghost predicate HasOther(g: Group, st: State) {
    exists s :: s in g.states && s != st
  }

  /** What a leave does: the group stays exactly when it has another state, and no other group changes. */
  ghost predicate LeftBy(before: Groups, after: Groups, group: nat, st: State)
    requires group in before
  {
    && OtherGroupsKept(before, after, group)
    && (group in after <==> HasOther(before[group], st))
    && (group in after ==> GroupLeft(before[group], after[group], st))
    && (group !in after ==> forall e :: e in before[group].ids ==> e.st == st)
  }

  /** The same sequence without one occurrence of an element. */
  ghost predicate OneOut(before: seq<State>, after: seq<State>, st: State) {
    exists i :: 0 <= i < |before| && before[i] == st && after == before[..i] + before[i + 1..]
  }

  /** The group a join starts from. */
  function Base(groups: Groups, group: nat): Group {
    if group in groups then groups[group] else Group([], 0, [])
  }

  /** Taking a reference, to a new group if there is none. */
  function Got(groups: Groups, group: nat): Groups {
    groups[group := Base(groups, group).(refcnt := Base(groups, group).refcnt + 1)]
  }

  /** Giving a reference back; the last one removes the group. */
  function Put(groups: Groups, group: nat): Groups
    requires group in groups
  {
    var g := groups[group].(refcnt := groups[group].refcnt - 1);
    if g.refcnt == 0 then groups - {group} else groups[group := g]
  }

  predicate SomeNew(t: Table, ids: seq<Id>) {
    exists i :: 0 <= i < |ids| && !HasId(t, ids[i])
  }

  function JoinedGroup(g: Group, st: State, ids: seq<Id>): Group {
    Group(Joined(g.ids, st, ids), g.refcnt + 1, g.states + [st])
  }

  lemma {:induction false} JoinedIs(t: Table, st: State, ids: seq<Id>)
    ensures Joined(t, st, ids) == Sort(t + Fresh(t, st, ids))
  {
  }

  lemma {:induction false} FreshSome(t: Table, st: State, ids: seq<Id>)
    ensures Fresh(t, st, ids) != [] <==> SomeNew(t, ids)
  {
    FreshMembers(t, st, ids);
    var added := Fresh(t, st, ids);
    if added != [] {
      assert added[0] in added;
      var i :| 0 <= i < |ids| && ids[i] == added[0].id;
    }
    if SomeNew(t, ids) {
      var i :| 0 <= i < |ids| && !HasId(t, ids[i]);
      assert StateId(ids[i], st) in added;
    }
  }

  lemma {:induction false} GetPut(groups: Groups, group: nat)
    requires TableOk(groups)
    ensures Put(Got(groups, group), group) == groups
  {
  }

  lemma {:induction false} NotIn(groups: Groups, group: nat, st: State)
    requires TableOk(groups) && !Registered(groups, st)
    ensures !HasState(Base(groups, group).ids, st) && WellFormed(Base(groups, group).ids)
    ensures st !in Base(groups, group).states
  {
  }

  ghost predicate JoinReady(g: Group, st: State) {
    (g == Group([], 0, []) || GroupOk(g)) && st !in g.states
  }

  lemma {:induction false} JoinedGroupOk(g: Group, st: State, ids: seq<Id>)
    requires JoinReady(g, st) && SomeNew(g.ids, ids)
    ensures GroupOk(JoinedGroup(g, st, ids))
  {
    hide Joined, WellFormed, Owns;
    assert WellFormed(g.ids) by { EmptyWellFormed(); }
    var t := JoinedGroup(g, st, ids).ids;
    JoinedWellFormed(g.ids, st, ids);
    JoinedMembers(g.ids, st, ids);
    var i :| 0 <= i < |ids| && !HasId(g.ids, ids[i]);
    InTable(t, StateId(ids[i], st));
    forall s | s in g.states ensures HasState(t, s) {
      var k :| 0 <= k < |g.ids| && g.ids[k].st == s;
      InTable(t, g.ids[k]);
    }
  }

  lemma {:induction false} EmptyWellFormed()
    ensures WellFormed([])
  {
  }

  lemma {:induction false} JoinKeeps(groups: Groups, group: nat, st: State, ids: seq<Id>)
    requires TableOk(groups) && !Registered(groups, st) && SomeNew(Base(groups, group).ids, ids)
    ensures TableOk(groups[group := JoinedGroup(Base(groups, group), st, ids)])
  {
    hide GroupOk;
    assert JoinReady(Base(groups, group), st);
    JoinedGroupOk(Base(groups, group), st, ids);
  }

  lemma {:induction false} JoinIs(groups: Groups, group: nat, st: State, ids: seq<Id>)
    requires TableOk(groups) && !Registered(groups, st)
    ensures JoinedBy(groups, groups[group := JoinedGroup(Base(groups, group), st, ids)], group, st, ids)
  {
    hide GroupOk, TableOk, Registered, Joined, WellFormed, Owns, HasId;
    var t := Base(groups, group).ids;
    NotIn(groups, group, st);
    JoinedWellFormed(t, st, ids);
    IsSorted(Joined(t, st, ids));
    forall e ensures multiset(Joined(t, st, ids))[e] ==
                     multiset(t)[e] + if e.st == st && !HasId(t, e.id) then multiset(ids)[e.id] else 0 {
      JoinedCount(t, st, ids, e);
    }
    forall key, e, f | Owns(t, key, e) && Owns(Joined(t, st, ids), key, f) ensures f == e || (f.st == st && f !in t) {
      JoinDisruption(t, st, ids, key, e, f);
    }
  }

  lemma {:induction false} IsSorted(t: Table)
    requires WellFormed(t)
    ensures Sorted(t)
  {
  }

  lemma {:induction false} InTable(t: Table, e: StateId)
    requires e in t
    ensures HasState(t, e.st)
  {
  }

  // --------------------------------------------------------------------------
  // Leaving
  // --------------------------------------------------------------------------

  function Removed(states: seq<State>, st: State): seq<State> {
    if states == [] then []
    else if states[0] == st then states[1..]
    else [states[0]] + Removed(states[1..], st)
  }

  lemma {:induction false} RemovedMembers(states: seq<State>, st: State)
    requires st in states && forall i, j :: 0 <= i < j < |states| ==> states[i] != states[j]
    ensures |Removed(states, st)| == |states| - 1
    ensures forall s :: s in Removed(states, st) <==> s in states && s != st
    ensures forall i, j :: 0 <= i < j < |Removed(states, st)| ==> Removed(states, st)[i] != Removed(states, st)[j]
  {
    assert states == [states[0]] + states[1..];
    if states[0] != st {
      var r := Removed(states[1..], st);
      RemovedMembers(states[1..], st);
      forall j | 0 <= j < |r| ensures r[j] != states[0] {
        assert r[j] in r;
        assert r[j] in states[1..];
      }
    }
  }

  lemma {:induction false} RemovedOne(states: seq<State>, st: State)
    requires st in states
    ensures OneOut(states, Removed(states, st), st)
  {
    if states[0] == st {
      assert Removed(states, st) == states[..0] + states[0 + 1..];
    } else {
      assert states == [states[0]] + states[1..];
      RemovedOne(states[1..], st);
      var i :| 0 <= i < |states[1..]| && states[1..][i] == st
               && Removed(states[1..], st) == states[1..][..i] + states[1..][i + 1..];
      assert states[i + 1] == st && Removed(states, st) == states[..i + 1] + states[i + 1 + 1..];
    }
  }

  function LeftGroups(groups: Groups, group: nat, st: State): Groups
    requires group in groups
  {
    var g := groups[group];
    Put(groups[group := g.(ids := Left(g.ids, st), states := Removed(g.states, st))], group)
  }

  lemma {:induction false} LeftGroupOk(g: Group, st: State)
    requires GroupOk(g) && st in g.states
    ensures var g' := Group(Left(g.ids, st), g.refcnt - 1, Removed(g.states, st));
            (g'.refcnt == 0 <==> g'.states == []) && (g'.refcnt != 0 ==> GroupOk(g')) && st !in g'.states
            && (forall s :: s in g'.states ==> s in g.states)
  {
    hide Left, WellFormed, Owns;
    LeftWellFormed(g.ids, st);
    LeftMembers(g.ids, st);
    RemovedMembers(g.states, st);
    forall s | s in Removed(g.states, st) ensures HasState(Left(g.ids, st), s) {
      var k :| 0 <= k < |g.ids| && g.ids[k].st == s;
      InTable(Left(g.ids, st), g.ids[k]);
    }
  }

  lemma {:induction false} LeaveKeeps(groups: Groups, group: nat, st: State)
    requires TableOk(groups) && group in groups && st in groups[group].states
    ensures TableOk(LeftGroups(groups, group, st)) && !Registered(LeftGroups(groups, group, st), st)
  {
    hide GroupOk, Left;
    LeftGroupOk(groups[group], st);
  }

  lemma {:induction false} GroupLeftIs(g: Group, st: State)
    requires GroupOk(g) && st in g.states
    ensures GroupLeft(g, Group(Left(g.ids, st), g.refcnt - 1, Removed(g.states, st)), st)
  {
    hide Left, Owns, HasState, OneOut, Removed;
    LeftWellFormed(g.ids, st);
    RemovedOne(g.states, st);
    forall e ensures multiset(Left(g.ids, st))[e] == if e.st != st then multiset(g.ids)[e] else 0 {
      LeftCount(g.ids, st, e);
    }
    forall key, e, f | Owns(g.ids, key, e) && Owns(Left(g.ids, st), key, f) ensures f == e <==> e.st != st {
      LeaveDisruption(g.ids, st, key, e, f);
    }
  }

  lemma {:induction false} LastState(g: Group, st: State)
    requires GroupOk(g) && st in g.states
    ensures g.refcnt == 1 <==> !HasOther(g, st)
    ensures g.refcnt == 1 ==> forall e :: e in g.ids ==> e.st == st
  {
    RemovedMembers(g.states, st);
    var r := Removed(g.states, st);
    assert r != [] ==> r[0] in r;
  }

  lemma {:induction false} LeaveIs(groups: Groups, group: nat, st: State)
    requires TableOk(groups) && group in groups && st in groups[group].states
    ensures LeftBy(groups, LeftGroups(groups, group, st), group, st)
  {
    hide GroupOk, GroupLeft, HasOther, Left, Removed;
    GroupLeftIs(groups[group], st);
    LastState(groups[group], st);
  }

  /** A successful join followed by that state's leave restores the routing table exactly. */
  lemma {:induction false} JoinThenLeave(groups: Groups, group: nat, st: State, ids: seq<Id>)
    requires TableOk(groups) && !Registered(groups, st) && SomeNew(Base(groups, group).ids, ids)
    ensures LeftGroups(groups[group := JoinedGroup(Base(groups, group), st, ids)], group, st) == groups
  {
    hide GroupOk, Left, Joined;
    var g := Base(groups, group);
    NotIn(groups, group, st);
    JoinLeave(g.ids, st, ids);
    RemovedLast(g.states, st);
    GetPut(groups, group);
  }

  lemma {:induction false} RemovedLast(states: seq<State>, st: State)
    requires st !in states
    ensures Removed(states + [st], st) == states
  {
    if states != [] {
      RemovedLast(states[1..], st);
      assert (states + [st])[1..] == states[1..] + [st];
    }
  }
}
