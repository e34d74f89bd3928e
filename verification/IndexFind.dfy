/**
 Finding the objects that carry all, or any, of some tags: the server answers for
 the tables of one shard, the client asks every shard.
 */
module IndexFind {
  import opened Basics
  import opened IndexTables
  import opened IndexShards
  import opened IndexStore

  /** The data of an object under one of the tables asked for. */
  datatype Label = Label(table: TableId, data: Data)

  datatype Found = Found(id: Id, labels: seq<Label>)

  /** What the first `k` tables say about an object, in the order of the request. */
  function Labels(ts: seq<Table>, ids: seq<TableId>, o: Id, k: nat): seq<Label>
    requires k <= |ts| == |ids|
  {
    if k == 0 then []
    else
      var d := DataOf(ts[k - 1], o);
      Labels(ts, ids, o, k - 1) + (if d.Some? then [Label(ids[k - 1], d.value)] else [])
  }

  ghost predicate InAll(ts: seq<Table>, o: Id, k: nat)
    requires k <= |ts|
  {
    forall i :: 0 <= i < k ==> DataOf(ts[i], o).Some?
  }

  ghost predicate InAny(ts: seq<Table>, o: Id, k: nat)
    requires k <= |ts|
  {
    exists i :: 0 <= i < k && DataOf(ts[i], o).Some?
  }

  lemma {:induction false} LabelsAny(ts: seq<Table>, ids: seq<TableId>, o: Id, k: nat)
    requires k <= |ts| == |ids|
    ensures Labels(ts, ids, o, k) != [] <==> InAny(ts, o, k)
  {
    if k > 0 { LabelsAny(ts, ids, o, k - 1); }
  }

  /** Each matching object once, with everything the tables say about it. */
  ghost predicate Answers(result: seq<Found>, ts: seq<Table>, ids: seq<TableId>, intersect: bool)
    requires |ts| == |ids|
  {
    && (forall i, j :: 0 <= i < j < |result| ==> result[i].id != result[j].id)
    && forall f :: f in result <==>
         && (if intersect then |ts| > 0 && InAll(ts, f.id, |ts|) else InAny(ts, f.id, |ts|))
         && f.labels == Labels(ts, ids, f.id, |ts|)
  }

  // --------------------------------------------------------------------------
  // The union
  // --------------------------------------------------------------------------

  /** What is known of an object after `k` tables and the first `j` entries of the next one. */
  function Part(ts: seq<Table>, ids: seq<TableId>, o: Id, k: nat, j: nat): seq<Label>
    requires k <= |ts| == |ids| && (if k == |ts| then j == 0 else j <= |ts[k]|)
  {
    if j == 0 then Labels(ts, ids, o, k)
    else
      var d := DataOf(ts[k][..j], o);
      Labels(ts, ids, o, k) + (if d.Some? then [Label(ids[k], d.value)] else [])
  }

  /** The end of one table is the beginning of the next. */
  lemma {:induction false} PartEnds(ts: seq<Table>, ids: seq<TableId>, o: Id, k: nat)
    requires k < |ts| == |ids|
    ensures Part(ts, ids, o, k, |ts[k]|) == Part(ts, ids, o, k + 1, 0)
  {
    assert ts[k][..|ts[k]|] == ts[k];
  }

  lemma {:induction false} PrefixData(t: Table, j: nat, o: Id)
    requires Strict(t) && j < |t|
    ensures DataOf(t[..j + 1], o) == if o == t[j].index then Some(t[j].data) else DataOf(t[..j], o)
    ensures DataOf(t[..j], t[j].index) == None
    decreases j
  {
    DataOfHas(t[..j], t[j].index);
    if j == 0 {
      assert t[..1] == [t[0]] && [t[0]][1..] == [];
      assert DataOf(t[..1], o) == if t[0].index == o then Some(t[0].data) else DataOf([t[0]][1..], o);
    } else {
      StrictTail(t);
      PrefixData(t[1..], j - 1, o);
      assert t[..j + 1][1..] == t[1..][..j];
      assert t[..j][1..] == t[1..][..j - 1];
    }
  }

  /** One more entry adds one label to one object. */
  lemma {:induction false} PartNext(ts: seq<Table>, ids: seq<TableId>, o: Id, k: nat, j: nat)
    requires k < |ts| == |ids| && j < |ts[k]| && Strict(ts[k])
    ensures Part(ts, ids, o, k, j + 1) ==
            Part(ts, ids, o, k, j) + (if o == ts[k][j].index then [Label(ids[k], ts[k][j].data)] else [])
  {
    PrefixData(ts[k], j, o);
    PrefixData(ts[k], j, ts[k][j].index);
    assert ts[k][..0] == [];
  }

  /** The accumulated results and the map from objects to their positions. */
  ghost predicate Collected(result: seq<Found>, at: map<Id, nat>, ts: seq<Table>, ids: seq<TableId>, k: nat, j: nat)
    requires k <= |ts| == |ids| && (if k == |ts| then j == 0 else j <= |ts[k]|)
  {
    && (forall p :: 0 <= p < |result| ==> result[p].id in at && at[result[p].id] == p)
    && (forall o: Id :: o in at <==> Part(ts, ids, o, k, j) != [])
    && (forall o: Id :: o in at ==> at[o] < |result| && result[at[o]] == Found(o, Part(ts, ids, o, k, j)))
  }

  /** The tables read for a request, a missing one counting as empty. */
  function Present(stored: seq<Option<Table>>): seq<Table> {
    seq(|stored|, i requires 0 <= i < |stored| => if stored[i].Some? then stored[i].value else [])
  }

  /** The union of the tables that exist; missing ones are skipped. */
  method FindUnite(stored: seq<Option<Table>>, ids: seq<TableId>) returns (result: seq<Found>)
    requires |stored| == |ids| && forall i :: 0 <= i < |stored| ==> Strict(Present(stored)[i])
    ensures Answers(result, Present(stored), ids, false)
  {
    hide Answers, Collected;
    ghost var ts := Present(stored);
    result := [];
    var at: map<Id, nat> := map[];
    CollectedNone(ts, ids);
    var i := 0;
    while i < |stored|
      invariant i <= |ts| && Collected(result, at, ts, ids, i, 0)
    {
      if stored[i].None? {
        CollectedTable(result, at, ts, ids, i);
        i := i + 1;
        continue;
      }
      var tmp := stored[i].value;
      var j := 0;
      while j < |tmp|
        invariant j <= |ts[i]| && Collected(result, at, ts, ids, i, j)
      {
        var entry := tmp[j];
        CollectedAt(result, at, ts, ids, i, j, entry.index);
        ghost var result0, known := result, entry.index in at;
        if known {
          CollectedKnown(result, at, ts, ids, i, j);
        } else {
          CollectedNew(result, at, ts, ids, i, j);
        }
        if entry.index !in at {
          at := at[entry.index := |result|];
          result := result + [Found(entry.index, [])];
        }
        var p := at[entry.index];
        result := result[p := Found(result[p].id, result[p].labels + [Label(ids[i], entry.data)])];
        assert [] + [Label(ids[i], entry.data)] == [Label(ids[i], entry.data)];
        assert !known ==> result == result0 + [Found(entry.index, [Label(ids[i], entry.data)])];
        j := j + 1;
      }
      CollectedTable(result, at, ts, ids, i);
      i := i + 1;
    }
    CollectedAll(result, at, ts, ids);
  }

  lemma {:induction false} CollectedNone(ts: seq<Table>, ids: seq<TableId>)
    requires |ts| == |ids|
    ensures Collected([], map[], ts, ids, 0, 0)
  {
  }

  lemma {:induction false} CollectedAt(result: seq<Found>, at: map<Id, nat>, ts: seq<Table>, ids: seq<TableId>,
                                       k: nat, j: nat, o: Id)
    requires k <= |ts| == |ids| && (if k == |ts| then j == 0 else j <= |ts[k]|) && Collected(result, at, ts, ids, k, j)
    ensures o in at ==> at[o] < |result| && result[at[o]].id == o
  {
  }

  lemma {:induction false} AllNext(ts: seq<Table>, ids: seq<TableId>, k: nat, j: nat)
    requires k < |ts| == |ids| && j < |ts[k]| && Strict(ts[k])
    ensures forall o: Id :: Part(ts, ids, o, k, j + 1) ==
              if o == ts[k][j].index then Part(ts, ids, o, k, j) + [Label(ids[k], ts[k][j].data)]
                  else Part(ts, ids, o, k, j)
  {
    forall o: Id ensures Part(ts, ids, o, k, j + 1) ==
                         if o == ts[k][j].index then Part(ts, ids, o, k, j) + [Label(ids[k], ts[k][j].data)]
                         else Part(ts, ids, o, k, j) {
      PartNext(ts, ids, o, k, j);
      assert Part(ts, ids, o, k, j) + [] == Part(ts, ids, o, k, j);
    }
  }

  /** One more entry of an object that has a result. */
  lemma {:induction false} CollectedKnown(result: seq<Found>, at: map<Id, nat>, ts: seq<Table>, ids: seq<TableId>,
                                          k: nat, j: nat)
    requires k < |ts| == |ids| && j < |ts[k]| && Strict(ts[k]) && Collected(result, at, ts, ids, k, j)
    requires ts[k][j].index in at
    ensures var e := ts[k][j];
            var p := at[e.index];
            && p < |result|
            && Collected(result[p := Found(result[p].id, result[p].labels + [Label(ids[k], e.data)])],
                         at, ts, ids, k, j + 1)
  {
    hide Part;
    AllNext(ts, ids, k, j);
    var e := ts[k][j];
    var p := at[e.index];
    var result' := result[p := Found(result[p].id, result[p].labels + [Label(ids[k], e.data)])];
    forall o: Id | o in at ensures at[o] < |result'| && result'[at[o]] == Found(o, Part(ts, ids, o, k, j + 1)) {
      assert o != e.index ==> at[o] != p by { assert result[at[o]].id == o; }
    }
  }

  /** One more entry of an object that has none. */
  lemma {:induction false} CollectedNew(result: seq<Found>, at: map<Id, nat>, ts: seq<Table>, ids: seq<TableId>,
                                        k: nat, j: nat)
    requires k < |ts| == |ids| && j < |ts[k]| && Strict(ts[k]) && Collected(result, at, ts, ids, k, j)
    requires ts[k][j].index !in at
    ensures var e := ts[k][j];
            Collected(result + [Found(e.index, [Label(ids[k], e.data)])], at[e.index := |result|], ts, ids, k, j + 1)
  {
    hide Part;
    AllNext(ts, ids, k, j);
    var e := ts[k][j];
    var added := [Label(ids[k], e.data)];
    assert Part(ts, ids, e.index, k, j) == [];
    assert [] + added == added;
    var at', result' := at[e.index := |result|], result + [Found(e.index, added)];
    forall p | 0 <= p < |result'| ensures result'[p].id in at' && at'[result'[p].id] == p {
      if p < |result| { assert result[p].id in at; }
    }
    forall o: Id | o in at' ensures at'[o] < |result'| && result'[at'[o]] == Found(o, Part(ts, ids, o, k, j + 1)) {
      if o != e.index { assert result[at[o]] == Found(o, Part(ts, ids, o, k, j)); }
    }
  }

  lemma {:induction false} CollectedTable(result: seq<Found>, at: map<Id, nat>, ts: seq<Table>, ids: seq<TableId>,
                                          k: nat)
    requires k < |ts| == |ids| && Collected(result, at, ts, ids, k, |ts[k]|)
    ensures Collected(result, at, ts, ids, k + 1, 0)
  {
    forall o: Id ensures Part(ts, ids, o, k, |ts[k]|) == Part(ts, ids, o, k + 1, 0) { PartEnds(ts, ids, o, k); }
  }

  lemma {:induction false} CollectedAll(result: seq<Found>, at: map<Id, nat>, ts: seq<Table>, ids: seq<TableId>)
    requires |ts| == |ids| && Collected(result, at, ts, ids, |ts|, 0)
    ensures Answers(result, ts, ids, false)
  {
    forall f ensures f in result <==> InAny(ts, f.id, |ts|) && f.labels == Labels(ts, ids, f.id, |ts|) {
      LabelsAny(ts, ids, f.id, |ts|);
      if f in result {
        var p :| 0 <= p < |result| && result[p] == f;
        assert at[result[p].id] == p;
      }
      if f.id in at { assert result[at[f.id]] in result; }
    }
  }

  // --------------------------------------------------------------------------
  // The intersection
  // --------------------------------------------------------------------------

  ghost predicate StrictFound(r: seq<Found>) {
    forall i, j :: 0 <= i < j < |r| ==> r[i].id < r[j].id
  }

  /** `std::set_intersection` of the results with a table, keeping the results. */
  function KeepListed(r: seq<Found>, t: Table): seq<Found> {
    if r == [] || t == [] then []
    else if r[0].id < t[0].index then KeepListed(r[1..], t)
    else if t[0].index < r[0].id then KeepListed(r, t[1..])
    else [r[0]] + KeepListed(r[1..], t[1..])
  }

  /** `std::set_intersection` of a table with the results, keeping the entries. */
  function KeepFound(t: Table, r: seq<Found>): Table {
    if t == [] || r == [] then []
    else if t[0].index < r[0].id then KeepFound(t[1..], r)
    else if r[0].id < t[0].index then KeepFound(t, r[1..])
    else [t[0]] + KeepFound(t[1..], r[1..])
  }

  lemma {:induction false} FoundTail(r: seq<Found>)
    requires StrictFound(r) && r != []
    ensures StrictFound(r[1..]) && r == [r[0]] + r[1..]
    ensures forall f :: f in r[1..] ==> r[0].id < f.id
  {
  }

  lemma {:induction false} FoundCons(f: Found, r: seq<Found>)
    requires StrictFound(r) && forall g :: g in r ==> f.id < g.id
    ensures StrictFound([f] + r)
  {
  }

  lemma {:induction false} SmallerUnlisted(t: Table, x: Id)
    requires Strict(t) && (t == [] || x < t[0].index)
    ensures DataOf(t, x) == None
  {
    if t != [] { StrictTail(t); if t[1..] != [] { assert t[1..][0] in t[1..]; } SmallerUnlisted(t[1..], x); }
  }

  lemma {:induction false} KeptMembers(r: seq<Found>, t: Table)
    requires StrictFound(r) && Strict(t)
    ensures StrictFound(KeepListed(r, t))
    ensures forall f :: f in KeepListed(r, t) <==> f in r && DataOf(t, f.id).Some?
  {
    if r == [] || t == [] {
    } else {
      FoundTail(r);
      StrictTail(t);
      if r[0].id < t[0].index {
        KeptMembers(r[1..], t);
        SmallerUnlisted(t, r[0].id);
      } else if t[0].index < r[0].id {
        KeptMembers(r, t[1..]);
      } else {
        KeptMembers(r[1..], t[1..]);
        FoundCons(r[0], KeepListed(r[1..], t[1..]));
      }
    }
  }

  /** Results that are all listed line up with their entries in the table. */
  lemma {:induction false} LinedUp(t: Table, r: seq<Found>)
    requires StrictFound(r) && Strict(t) && forall f :: f in r ==> DataOf(t, f.id).Some?
    ensures |KeepFound(t, r)| == |r|
    ensures forall k :: 0 <= k < |r| ==> DataOf(t, r[k].id) == Some(KeepFound(t, r)[k].data)
  {
    if r == [] {
    } else {
      assert r[0] in r;
      FoundTail(r);
      if t != [] {
        StrictTail(t);
        if t[0].index < r[0].id {
          forall f | f in r ensures DataOf(t[1..], f.id) == DataOf(t, f.id) { assert f == r[0] || f in r[1..]; }
          LinedUp(t[1..], r);
          forall k | 0 <= k < |r| ensures DataOf(t, r[k].id) == DataOf(t[1..], r[k].id) { assert r[k] in r; }
        } else if r[0].id < t[0].index {
          SmallerUnlisted(t, r[0].id);
        } else {
          LinedUp(t[1..], r[1..]);
          forall k | 0 < k < |r| ensures DataOf(t, r[k].id) == DataOf(t[1..], r[1..][k - 1].id) {
            assert r[k] in r[1..];
          }
        }
      }
    }
  }

  /** The objects in all of the first `k` tables, with their labels. */
  ghost predicate Common(r: seq<Found>, ts: seq<Table>, ids: seq<TableId>, k: nat)
    requires k <= |ts| == |ids|
  {
    && StrictFound(r)
    && forall f :: f in r <==> InAll(ts, f.id, k) && f.labels == Labels(ts, ids, f.id, k)
  }

  function Extended(f: Found, id: TableId, d: Data): Found {
    Found(f.id, f.labels + [Label(id, d)])
  }

  /** One more table: drop the objects it does not list, and label the others. */
  lemma {:induction false} CommonNext(r: seq<Found>, kept: seq<Found>, r': seq<Found>, ts: seq<Table>,
                                      ids: seq<TableId>, k: nat)
    requires k < |ts| == |ids| && Strict(ts[k]) && Common(r, ts, ids, k) && kept == KeepListed(r, ts[k])
    requires |r'| == |kept| == |KeepFound(ts[k], kept)|
    requires forall j :: 0 <= j < |kept| ==> r'[j] == Extended(kept[j], ids[k], KeepFound(ts[k], kept)[j].data)
    ensures Common(r', ts, ids, k + 1)
  {
    hide Labels;
    KeptMembers(r, ts[k]);
    LinedUp(ts[k], kept);
    forall o: Id ensures InAll(ts, o, k + 1) <==> InAll(ts, o, k) && DataOf(ts[k], o).Some? { InAllNext(ts, o, k); }
    forall f ensures f in r' <==> InAll(ts, f.id, k + 1) && f.labels == Labels(ts, ids, f.id, k + 1) {
      LabelsNext(ts, ids, f.id, k);
      if f in r' {
        var j :| 0 <= j < |r'| && r'[j] == f;
        assert kept[j] in kept;
      }
      if InAll(ts, f.id, k + 1) && f.labels == Labels(ts, ids, f.id, k + 1) {
        var g := Found(f.id, Labels(ts, ids, f.id, k));
        assert g in kept;
        var j :| 0 <= j < |kept| && kept[j] == g;
        assert r'[j] == f;
      }
    }
  }

  lemma {:induction false} InAllNext(ts: seq<Table>, o: Id, k: nat)
    requires k < |ts|
    ensures InAll(ts, o, k + 1) <==> InAll(ts, o, k) && DataOf(ts[k], o).Some?
  {
  }

  lemma {:induction false} LabelsNext(ts: seq<Table>, ids: seq<TableId>, o: Id, k: nat)
    requires k < |ts| == |ids|
    ensures DataOf(ts[k], o).Some? ==>
              Labels(ts, ids, o, k + 1) == Labels(ts, ids, o, k) + [Label(ids[k], DataOf(ts[k], o).value)]
  {
  }

  lemma {:induction false} OneTable(ts: seq<Table>, ids: seq<TableId>, o: Id)
    requires 0 < |ts| == |ids|
    ensures InAll(ts, o, 1) <==> DataOf(ts[0], o).Some?
    ensures DataOf(ts[0], o).Some? ==> Labels(ts, ids, o, 1) == [Label(ids[0], DataOf(ts[0], o).value)]
  {
  }

  /** The results of the first table. */
  lemma {:induction false} CommonFirst(r: seq<Found>, ts: seq<Table>, ids: seq<TableId>)
    requires 0 < |ts| == |ids| && Strict(ts[0]) && |r| == |ts[0]|
    requires forall j :: 0 <= j < |r| ==> r[j] == Found(ts[0][j].index, [Label(ids[0], ts[0][j].data)])
    ensures Common(r, ts, ids, 1)
  {
    StrictDistinct(ts[0]);
    forall f ensures f in r <==> InAll(ts, f.id, 1) && f.labels == Labels(ts, ids, f.id, 1) {
      OneTable(ts, ids, f.id);
      if f in r {
        var j :| 0 <= j < |r| && r[j] == f;
        assert Entry(f.id, ts[0][j].data) == ts[0][j];
        DataOfMember(ts[0], f.id, ts[0][j].data);
      }
      if DataOf(ts[0], f.id).Some? {
        var d := DataOf(ts[0], f.id).value;
        DataOfMember(ts[0], f.id, d);
        var j :| 0 <= j < |ts[0]| && ts[0][j] == Entry(f.id, d);
        assert r[j] == Found(f.id, [Label(ids[0], d)]);
      }
    }
  }

  /** The intersection; a missing table is an error, and then there is nothing to find. */
  method FindIntersect(stored: seq<Option<Table>>, ids: seq<TableId>) returns (r: Option<seq<Found>>)
    requires |stored| == |ids| && forall i :: 0 <= i < |stored| ==> Strict(Present(stored)[i])
    ensures r.None? <==> None in stored
    ensures Answers(if r.Some? then r.value else [], Present(stored), ids, true)
  {
    hide Common, Labels;
    ghost var ts := Present(stored);
    var result := [];
    var i := 0;
    while i < |stored|
      invariant i <= |ts| && (i == 0 ==> result == []) && (i > 0 ==> Common(result, ts, ids, i))
      invariant None !in stored[..i]
    {
      if stored[i].None? {
        MissingNone(stored, ids, i);
        return None;
      }
      var tmp := stored[i].value;
      assert tmp == ts[i] && Strict(ts[i]);
      assert stored[..i + 1] == stored[..i] + [stored[i]];
      if i == 0 {
        result := seq(|tmp|, j requires 0 <= j < |tmp| => Found(tmp[j].index, [Label(ids[0], tmp[j].data)]));
        CommonFirst(result, ts, ids);
      } else {
        ghost var before := result;
        CommonStrict(result, ts, ids, i);
        KeptMembers(result, tmp);
        result := KeepListed(result, tmp);
        ghost var kept := result;
        LinedUp(tmp, result);
        tmp := KeepFound(tmp, result);
        var k := 0;
        while k < |result|
          invariant k <= |result| == |kept|
          invariant forall j :: 0 <= j < k ==> result[j] == Extended(kept[j], ids[i], tmp[j].data)
          invariant forall j :: k <= j < |kept| ==> result[j] == kept[j]
        {
          result := result[k := Extended(result[k], ids[i], tmp[k].data)];
          k := k + 1;
        }
        CommonNext(before, kept, result, ts, ids, i);
      }
      i := i + 1;
    }
    if |ts| > 0 { CommonAnswers(result, ts, ids); }
    assert stored[..i] == stored;
    r := Some(result);
  }

  /** With a table missing no object is in all of them. */
  lemma {:induction false} MissingNone(stored: seq<Option<Table>>, ids: seq<TableId>, i: nat)
    requires i < |stored| == |ids| && stored[i].None?
    ensures Answers([], Present(stored), ids, true) && None in stored
  {
    var ts := Present(stored);
    assert ts[i] == [];
    forall o: Id ensures !InAll(ts, o, |ts|) { assert DataOf(ts[i], o) == None; }
  }

  lemma {:induction false} CommonStrict(r: seq<Found>, ts: seq<Table>, ids: seq<TableId>, k: nat)
    requires k <= |ts| == |ids| && Common(r, ts, ids, k)
    ensures StrictFound(r)
  {
  }

  lemma {:induction false} CommonAnswers(r: seq<Found>, ts: seq<Table>, ids: seq<TableId>)
    requires 0 < |ts| == |ids| && Common(r, ts, ids, |ts|)
    ensures Answers(r, ts, ids, true)
  {
  }

  // --------------------------------------------------------------------------
  // All shards
  // --------------------------------------------------------------------------

  /** What an object itself lists under the tags asked for. */
  function OwnLabels(own: Table, tags: seq<Id>, k: nat): seq<Entry>
    requires k <= |tags|
  {
    if k == 0 then []
    else
      var d := DataOf(own, tags[k - 1]);
      OwnLabels(own, tags, k - 1) + (if d.Some? then [Entry(tags[k - 1], d.value)] else [])
  }

  lemma {:induction false} OneMoreLabel(a: seq<Entry>, b: seq<Entry>, e: Entry)
    requires |b| <= 1
    ensures multiset(a + b)[e] == multiset(a)[e] + if e in b then 1 else 0
  {
    assert multiset(a + b) == multiset(a) + multiset(b);
    assert b != [] ==> b == [b[0]];
  }

  lemma {:induction false} OneMoreTag(tags: seq<Id>, k: nat, x: Id)
    requires 0 < k <= |tags|
    ensures multiset(tags[..k])[x] == multiset(tags[..k - 1])[x] + if tags[k - 1] == x then 1 else 0
  {
    assert tags[..k] == tags[..k - 1] + [tags[k - 1]];
  }

  /** The labels of an object: one for each requested tag that it carries, with the data it has for the tag. */
  lemma {:induction false} OwnLabelsAre(own: Table, tags: seq<Id>, k: nat, e: Entry)
    requires k <= |tags|
    ensures multiset(OwnLabels(own, tags, k))[e] ==
            if DataOf(own, e.index) == Some(e.data) then multiset(tags[..k])[e.index] else 0
  {
    hide DataOf;
    if k > 0 {
      OwnLabelsAre(own, tags, k - 1, e);
      OneMoreTag(tags, k, e.index);
      var d := DataOf(own, tags[k - 1]);
      OneMoreLabel(OwnLabels(own, tags, k - 1), if d.Some? then [Entry(tags[k - 1], d.value)] else [], e);
    }
  }

  /** An object that carries all of them has one label per tag, in the order of the request. */
  lemma {:induction false} AllLabels(own: Table, tags: seq<Id>, k: nat)
    requires k <= |tags| && forall i :: 0 <= i < k ==> DataOf(own, tags[i]).Some?
    ensures |OwnLabels(own, tags, k)| == k
    ensures forall i :: 0 <= i < k ==> OwnLabels(own, tags, k)[i] == Entry(tags[i], DataOf(own, tags[i]).value)
  {
    if k > 0 { AllLabels(own, tags, k - 1); }
  }

  ghost predicate Carries(own: Table, tags: seq<Id>, intersect: bool) {
    if intersect then |tags| > 0 && forall i :: 0 <= i < |tags| ==> DataOf(own, tags[i]).Some?
    else exists i :: 0 <= i < |tags| && DataOf(own, tags[i]).Some?
  }

  datatype Match = Match(id: Id, entries: seq<Entry>)

  /** The global answer: each object that carries the tags, once, with its own data. */
  ghost predicate GlobalAnswer(out: seq<Match>, objects: Objects, tags: seq<Id>, intersect: bool) {
    && (forall i, j :: 0 <= i < j < |out| ==> out[i].id != out[j].id)
    && forall m :: m in out <==>
         Carries(ObjectTable(objects, m.id), tags, intersect)
         && m.entries == OwnLabels(ObjectTable(objects, m.id), tags, |tags|)
  }

  /** The part of the global answer that lives in the first `n` shards. */
  ghost predicate ShardAnswer(out: seq<Match>, c: Config, objects: Objects, tags: seq<Id>, intersect: bool, n: nat) {
    && (forall i, j :: 0 <= i < j < |out| ==> out[i].id != out[j].id)
    && forall m :: m in out <==>
         && c.shardOf(m.id) < n && Carries(ObjectTable(objects, m.id), tags, intersect)
         && m.entries == OwnLabels(ObjectTable(objects, m.id), tags, |tags|)
  }

  function ShardTables(c: Config, tables: Tables, tags: seq<Id>, s: nat): seq<Table>
    requires c.count > 0
  {
    seq(|tags|, i requires 0 <= i < |tags| => IndexTable(c, tables, tags[i], s))
  }

  /** What reading the tables of one shard gives. */
  function ReadTables(c: Config, tables: Tables, tags: seq<Id>, s: nat): seq<Option<Table>>
    requires c.count > 0
  {
    seq(|tags|, i requires 0 <= i < |tags| =>
      var id := TableOf(tags[i], s, c.count, c.hash);
      if id in tables then Some(tables[id]) else None)
  }

  lemma {:induction false} ReadPresent(c: Config, tables: Tables, tags: seq<Id>, s: nat)
    requires c.count > 0
    ensures Present(ReadTables(c, tables, tags, s)) == ShardTables(c, tables, tags, s)
  {
  }

  function ShardIds(c: Config, tags: seq<Id>, s: nat): seq<TableId>
    requires c.count > 0
  {
    seq(|tags|, i requires 0 <= i < |tags| => TableOf(tags[i], s, c.count, c.hash))
  }

  /** The client's map from table ids back to tags. */
  ghost predicate Converts(convert: map<TableId, Id>, c: Config, tags: seq<Id>)
    requires c.count > 0
  {
    forall s: nat, j :: s < c.count && 0 <= j < |tags| ==>
      var id := TableOf(tags[j], s, c.count, c.hash);
      id in convert && convert[id] == tags[j]
  }

  function Converted(labels: seq<Label>, convert: map<TableId, Id>): seq<Entry> {
    seq(|labels|, i requires 0 <= i < |labels| =>
      Entry(if labels[i].table in convert then convert[labels[i].table] else 0, labels[i].data))
  }

  /** In its own shard, the tables say about an object what the object says itself. */
  lemma {:induction false} OwnShard(c: Config, objects: Objects, tables: Tables, tags: seq<Id>, convert: map<TableId,
                                    Id>,
                                    o: Id, k: nat)
    requires ConfigOk(c) && Mirrored(c, objects, tables) && Converts(convert, c, tags) && k <= |tags|
    ensures var s := c.shardOf(o);
            Converted(Labels(ShardTables(c, tables, tags, s), ShardIds(c, tags, s), o, k), convert)
            == OwnLabels(ObjectTable(objects, o), tags, k)
  {
    var s := c.shardOf(o);
    var ts, ids := ShardTables(c, tables, tags, s), ShardIds(c, tags, s);
    if k > 0 {
      OwnShard(c, objects, tables, tags, convert, o, k - 1);
      assert Listed(c, tables, tags[k - 1], s, o) == DataOf(ObjectTable(objects, o), tags[k - 1]);
      assert ts[k - 1] == IndexTable(c, tables, tags[k - 1], s);
      var d := DataOf(ts[k - 1], o);
      if d.Some? {
        ConvertedSnoc(Labels(ts, ids, o, k - 1), Label(ids[k - 1], d.value), convert);
      } else {
        assert Labels(ts, ids, o, k - 1) + [] == Labels(ts, ids, o, k - 1);
      }
    }
  }

  lemma {:induction false} ConvertedSnoc(labels: seq<Label>, l: Label, convert: map<TableId, Id>)
    requires l.table in convert
    ensures Converted(labels + [l], convert) == Converted(labels, convert) + [Entry(convert[l.table], l.data)]
  {
  }

  /** Another shard's tables do not list the object. */
  lemma {:induction false} OtherShard(c: Config, objects: Objects, tables: Tables, tags: seq<Id>, s: nat, o: Id, i: nat)
    requires ConfigOk(c) && Mirrored(c, objects, tables) && s < c.count && i < |tags|
    ensures DataOf(ShardTables(c, tables, tags, s)[i], o) ==
            if s == c.shardOf(o) then DataOf(ObjectTable(objects, o), tags[i]) else None
  {
    assert Listed(c, tables, tags[i], s, o) ==
           if s == c.shardOf(o) then DataOf(ObjectTable(objects, o), tags[i]) else None;
  }

  lemma {:induction false} MatchesHere(c: Config, objects: Objects, tables: Tables, tags: seq<Id>, s: nat, o: Id,
                                       intersect: bool)
    requires ConfigOk(c) && Mirrored(c, objects, tables) && s < c.count
    ensures var ts := ShardTables(c, tables, tags, s);
            (if intersect then |ts| > 0 && InAll(ts, o, |ts|) else InAny(ts, o, |ts|))
            <==> s == c.shardOf(o) && Carries(ObjectTable(objects, o), tags, intersect)
  {
    forall i | 0 <= i < |tags|
      ensures DataOf(ShardTables(c, tables, tags, s)[i], o) ==
              if s == c.shardOf(o) then DataOf(ObjectTable(objects, o), tags[i]) else None {
      OtherShard(c, objects, tables, tags, s, o, i);
    }
    if intersect && |tags| > 0 { assert DataOf(ShardTables(c, tables, tags, s)[0], o).Some? ==> s == c.shardOf(o); }
  }

  /** The results of one shard, with table ids turned back into tags. */
  function Matches(found: seq<Found>, convert: map<TableId, Id>): seq<Match> {
    seq(|found|, i requires 0 <= i < |found| => Match(found[i].id, Converted(found[i].labels, convert)))
  }

  lemma {:induction false} ShardFound(c: Config, objects: Objects, tables: Tables, tags: seq<Id>,
                                      convert: map<TableId, Id>,
                                      intersect: bool, s: nat, found: seq<Found>, m: Match)
    requires ConfigOk(c) && Mirrored(c, objects, tables) && Converts(convert, c, tags) && s < c.count
    requires Answers(found, ShardTables(c, tables, tags, s), ShardIds(c, tags, s), intersect)
    ensures m in Matches(found, convert) <==>
            && c.shardOf(m.id) == s && Carries(ObjectTable(objects, m.id), tags, intersect)
            && m.entries == OwnLabels(ObjectTable(objects, m.id), tags, |tags|)
  {
    var ts, ids := ShardTables(c, tables, tags, s), ShardIds(c, tags, s);
    MatchesHere(c, objects, tables, tags, s, m.id, intersect);
    OwnShard(c, objects, tables, tags, convert, m.id, |tags|);
    hide Carries;
    var f := Found(m.id, Labels(ts, ids, m.id, |ts|));
    if m in Matches(found, convert) {
      var i :| 0 <= i < |found| && Match(found[i].id, Converted(found[i].labels, convert)) == m;
      assert found[i] in found;
    }
    if f in found {
      var i :| 0 <= i < |found| && found[i] == f;
      assert Matches(found, convert)[i] == Match(m.id, Converted(f.labels, convert));
    }
  }

  lemma {:induction false} NextShard(out: seq<Match>, more: seq<Match>, c: Config, objects: Objects, tags: seq<Id>,
                                     intersect: bool, s: nat)
    requires ShardAnswer(out, c, objects, tags, intersect, s)
    requires forall i, j :: 0 <= i < j < |more| ==> more[i].id != more[j].id
    requires forall m :: m in more <==>
               && c.shardOf(m.id) == s && Carries(ObjectTable(objects, m.id), tags, intersect)
               && m.entries == OwnLabels(ObjectTable(objects, m.id), tags, |tags|)
    ensures ShardAnswer(out + more, c, objects, tags, intersect, s + 1)
  {
  }

  /** `find_indexes_functor::run`: the ids of all tables, and the map back from them. */
  method Precalc(c: Config, tags: seq<Id>) returns (convert: map<TableId, Id>)
    requires ConfigOk(c)
    ensures Converts(convert, c, tags)
  {
    convert := map[];
    var s := 0;
    while s < c.count
      invariant s <= c.count
      invariant forall s': nat, j :: s' < s && 0 <= j < |tags| ==> Maps(convert, c, tags, s', j)
    {
      var j := 0;
      while j < |tags|
        invariant j <= |tags|
        invariant forall s': nat, j' :: s' < s && 0 <= j' < |tags| ==> Maps(convert, c, tags, s', j')
        invariant forall j' :: 0 <= j' < j ==> Maps(convert, c, tags, s, j')
      {
        ghost var before := convert;
        convert := convert[TableOf(tags[j], s, c.count, c.hash) := tags[j]];
        forall s': nat, j' | s' < c.count && 0 <= j' < |tags| && Maps(before, c, tags, s', j')
          ensures Maps(convert, c, tags, s', j') {
          if TableOf(tags[j'], s', c.count, c.hash) == TableOf(tags[j], s, c.count, c.hash) {
            TablesApart(tags[j'], s', tags[j], s, c.count, c.hash);
          }
        }
        j := j + 1;
      }
      s := s + 1;
    }
    forall s: nat, j | s < c.count && 0 <= j < |tags|
      ensures var id := TableOf(tags[j], s, c.count, c.hash); id in convert && convert[id] == tags[j] {
      assert Maps(convert, c, tags, s, j);
    }
  }

  ghost predicate Maps(convert: map<TableId, Id>, c: Config, tags: seq<Id>, s: nat, j: int)
    requires c.count > 0 && 0 <= j < |tags|
  {
    var id := TableOf(tags[j], s, c.count, c.hash);
    id in convert && convert[id] == tags[j]
  }

  /** Some shard of an intersection lacks a table. */
  ghost predicate Lacking(c: Config, tables: Tables, tags: seq<Id>, n: nat)
    requires c.count > 0
  {
    exists s: nat :: s < n && None in ReadTables(c, tables, tags, s)
  }

  /**
   A sharded find gives the global answer.  An intersection also reports an error exactly when some shard
   lacks one of the tables.
   */
  method Find(store: Store, tags: seq<Id>, intersect: bool) returns (out: seq<Match>, error: bool)
    requires store.Valid()
    ensures GlobalAnswer(out, store.objects, tags, intersect)
    ensures error <==> intersect && Lacking(store.c, store.tables, tags, store.c.count)
  {
    hide Answers, ShardAnswer, Mirrored, Carries, Converts;
    var c := store.c;
    var convert := Precalc(c, tags);
    out, error := [], false;
    NoShard(c, store.objects, tags, intersect);
    var s := 0;
    while s < c.count
      invariant s <= c.count && ShardAnswer(out, c, store.objects, tags, intersect, s)
      invariant error <==> intersect && Lacking(c, store.tables, tags, s)
    {
      var stored, ids := ReadTables(c, store.tables, tags, s), ShardIds(c, tags, s);
      ghost var ts := ShardTables(c, store.tables, tags, s);
      ReadPresent(c, store.tables, tags, s);
      var found: seq<Found>;
      if intersect {
        var r := FindIntersect(stored, ids);
        found := if r.Some? then r.value else [];
        LackingNext(c, store.tables, tags, s);
        error := error || r.None?;
      } else {
        found := FindUnite(stored, ids);
      }
      var more := Matches(found, convert);
      forall m ensures m in more <==>
                       && c.shardOf(m.id) == s && Carries(ObjectTable(store.objects, m.id), tags, intersect)
                       && m.entries == OwnLabels(ObjectTable(store.objects, m.id), tags, |tags|) {
        ShardFound(c, store.objects, store.tables, tags, convert, intersect, s, found, m);
      }
      Once(found, ts, ids, intersect);
      NextShard(out, more, c, store.objects, tags, intersect, s);
      out := out + more;
      s := s + 1;
    }
    AllShards(out, c, store.objects, tags, intersect);
  }

  lemma {:induction false} LackingNext(c: Config, tables: Tables, tags: seq<Id>, s: nat)
    requires c.count > 0
    ensures Lacking(c, tables, tags, s + 1) <==> Lacking(c, tables, tags, s) || None in ReadTables(c, tables, tags, s)
  {
  }

  lemma {:induction false} NoShard(c: Config, objects: Objects, tags: seq<Id>, intersect: bool)
    ensures ShardAnswer([], c, objects, tags, intersect, 0)
  {
  }

  lemma {:induction false} Once(found: seq<Found>, ts: seq<Table>, ids: seq<TableId>, intersect: bool)
    requires |ts| == |ids| && Answers(found, ts, ids, intersect)
    ensures forall i, j :: 0 <= i < j < |found| ==> found[i].id != found[j].id
  {
  }

  lemma {:induction false} AllShards(out: seq<Match>, c: Config, objects: Objects, tags: seq<Id>, intersect: bool)
    requires ConfigOk(c) && ShardAnswer(out, c, objects, tags, intersect, c.count)
    ensures GlobalAnswer(out, objects, tags, intersect)
  {
  }

  /** With one shard or many, over the same object lists, a find returns the same matches. */
  lemma {:induction false} ShardingInvisible(a: seq<Match>, b: seq<Match>, objects: Objects, tags: seq<Id>,
                                             intersect: bool, m: Match)
    requires GlobalAnswer(a, objects, tags, intersect) && GlobalAnswer(b, objects, tags, intersect)
    ensures m in a <==> m in b
    ensures |a| == |b|
  {
    hide Carries, OwnLabels;
    assert forall x :: x in a <==> x in b;
    SameLength(a, b);
  }

  lemma {:induction false} SameLength(a: seq<Match>, b: seq<Match>)
    requires forall i, j :: 0 <= i < j < |a| ==> a[i].id != a[j].id
    requires forall i, j :: 0 <= i < j < |b| ==> b[i].id != b[j].id
    requires forall x :: x in a <==> x in b
    ensures |a| == |b|
  {
    AtMost(a, b);
    AtMost(b, a);
  }

  lemma {:induction false} AtMost(a: seq<Match>, b: seq<Match>)
    requires forall i, j :: 0 <= i < j < |a| ==> a[i] != a[j]
    requires forall x :: x in a ==> x in b
    ensures |a| <= |b|
  {
    if a != [] {
      assert a[0] in a;
      var k :| 0 <= k < |b| && b[k] == a[0];
      var rest := b[..k] + b[k + 1..];
      forall x | x in a[1..] ensures x in rest {
        assert x in a && x != a[0];
        var i :| 0 <= i < |b| && b[i] == x;
        assert rest[if i < k then i else i - 1] == x;
      }
      AtMost(a[1..], rest);
    }
  }
}
