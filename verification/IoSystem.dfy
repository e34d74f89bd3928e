/**
 The worker pool and the transactions together.  The pool's guarantee that one
 thread at a time processes the replies of a transaction is what the life of each
 transaction needs, so every run of the whole projects to runs of the parts.
 */
module IoSystem {
  import opened Basics
  import S = Scheduler
  import L = TransLife

  type Tid = nat

  /** Where a thread is with its current request. */
  datatype Pc = Ready | Busy(w: L.Worker) | Done

  /** The worker field of a stored transaction is unused; `View` fills it in. */
  datatype Sys = Sys(pool: S.Pool, pcs: seq<Pc>, life: map<Tid, L.Life>)

  datatype Step =
    | Alloc(tid: Tid)
    | Pool(a: S.Step)
    | Handle(me: nat)
    | Act(tid: Tid, b: L.Step)

  /** Thread `me` is in the middle of a reply to transaction `tid`. */
  predicate BusyOn(s: Sys, me: nat, tid: Tid) {
    me < |s.pcs| && me < |s.pool.status| && s.pcs[me].Busy? && S.Handles(s.pool.status[me], tid)
  }

  ghost function WorkerOf(s: Sys, tid: Tid): L.Worker {
    if exists me: nat :: BusyOn(s, me, tid) then
      var me: nat :| BusyOn(s, me, tid);
      s.pcs[me].w
    else L.Off
  }

  /** A transaction with the thread that processes its reply. */
  ghost function View(s: Sys, tid: Tid): L.Life
    requires tid in s.life
  {
    s.life[tid].(worker := WorkerOf(s, tid))
  }

  predicate Shape(s: Sys) {
    |s.pool.claims| == |s.pool.status| == |s.pcs|
  }

  /** A state is cleaned only while no thread is in the middle of a reply to the transaction. */
  ghost predicate Enabled(s: Sys, a: Step)
    requires Shape(s)
  {
    match a
    case Alloc(tid) => tid !in s.life
    case Pool(b) => S.Enabled(s.pool, b) && (b.Finish? ==> s.pcs[b.me].Done?)
    case Handle(me) => me < |s.pcs| && s.pool.status[me].Processing? && !s.pcs[me].Done?
                       && (s.pcs[me].Busy? ==> s.pool.status[me].r.tid in s.life)
    case Act(tid, b) => tid in s.life && !b.Take? && !b.Work? && L.Enabled(s.life[tid], b)
                        && (b.CleanTake? ==> forall me :: 0 <= me < |s.pcs| ==> !BusyOn(s, me, tid))
  }

  /** Processing a request: only a reply whose transaction is in the tree has anything to do. */
  function HandleStep(s: Sys, me: nat): Sys
    requires Shape(s) && me < |s.pcs| && s.pool.status[me].Processing?
    requires s.pcs[me].Busy? ==> s.pool.status[me].r.tid in s.life
  {
    var r := s.pool.status[me].r;
    match s.pcs[me]
    case Done => s
    case Ready =>
      if r.reply && r.tid in s.life && s.life[r.tid].inTree then
        var l := L.TakeStep(s.life[r.tid], r.more);
        s.(life := s.life[r.tid := l.(worker := L.Off)], pcs := s.pcs[me := Busy(l.worker)])
      else s.(pcs := s.pcs[me := Done])
    case Busy(w) =>
      var l := L.WorkStep(s.life[r.tid].(worker := w));
      s.(life := s.life[r.tid := l.(worker := L.Off)],
         pcs := s.pcs[me := if l.worker.Off? then Done else Busy(l.worker)])
  }

  ghost function Next(s: Sys, a: Step): Sys
    requires Shape(s) && Enabled(s, a)
  {
    match a
    case Alloc(tid) => s.(life := s.life[tid := L.Init()])
    case Pool(b) =>
      var pool := S.Next(s.pool, b);
      s.(pool := pool, pcs := if b.Round? then s.pcs[b.me := Ready] else s.pcs)
    case Handle(me) => HandleStep(s, me)
    case Act(tid, b) => s.(life := s.life[tid := L.Next(s.life[tid], b)])
  }

  ghost predicate Inv(s: Sys) {
    && Shape(s) && S.Inv(s.pool)
    && (forall me :: 0 <= me < |s.pcs| && s.pcs[me].Busy? ==> Engaged(s, me))
    && (forall tid :: tid in s.life ==> s.life[tid].worker.Off? && L.Inv(View(s, tid)))
  }

  /** A thread in the middle of a reply processes that reply. */
  predicate Engaged(s: Sys, me: nat)
    requires Shape(s) && me < |s.pcs| && s.pcs[me].Busy?
  {
    && s.pool.status[me].Processing? && s.pool.status[me].r.reply && s.pool.status[me].r.tid in s.life
    && !s.pcs[me].w.Off? && s.pcs[me].w.more == s.pool.status[me].r.more
  }

  lemma {:induction false} WorkerIs(s: Sys, me: nat, tid: Tid)
    requires Shape(s) && S.Inv(s.pool) && BusyOn(s, me, tid)
    ensures WorkerOf(s, tid) == s.pcs[me].w
  {
  }

  lemma {:induction false} WorkerOff(s: Sys, tid: Tid)
    requires forall me: nat :: !BusyOn(s, me, tid)
    ensures WorkerOf(s, tid) == L.Off
  {
  }

  /** Steps elsewhere leave the worker of a transaction as it was. */
  lemma {:induction false} WorkerSame(s: Sys, s': Sys, tid: Tid)
    requires Shape(s) && S.Inv(s.pool) && Shape(s') && S.Inv(s'.pool)
    requires forall me: nat :: BusyOn(s, me, tid) <==> BusyOn(s', me, tid)
    requires forall me: nat :: BusyOn(s, me, tid) && BusyOn(s', me, tid) ==> s'.pcs[me] == s.pcs[me]
    ensures WorkerOf(s', tid) == WorkerOf(s, tid)
  {
  }

  lemma {:induction false} PoolKeeps(s: Sys, b: S.Step)
    requires Inv(s) && Enabled(s, Pool(b))
    ensures Inv(Next(s, Pool(b)))
  {
    hide S.Inv;
    var s' := Next(s, Pool(b));
    S.StepKeeps(s.pool, b);
    PoolShape(s.pool, b);
    forall tid | tid in s'.life ensures s'.life[tid].worker.Off? && L.Inv(View(s', tid)) {
      PoolFollows(s, b, tid);
    }
  }

  lemma {:induction false} PoolShape(p: S.Pool, b: S.Step)
    requires S.Inv(p) && S.Enabled(p, b)
    ensures var p' := S.Next(p, b);
            && |p'.claims| == |p'.status| == |p.status|
            && (forall i :: 0 <= i < |p.status| && !(b.Round? && i == b.me) && !(b.Finish? && i == b.me) ==>
                  p'.status[i] == p.status[i])
            && (b.Finish? ==> !p'.status[b.me].Processing?)
  {
    hide S.InOrder, S.Conserved, S.LastIsLast, S.LastTaken, S.Exclusive, S.Find, S.Claimed;
  }

  /** The first step of a reply: if the transaction is in the tree, its life takes one step. */
  lemma {:induction false} ReadyView(s: Sys, me: nat)
    requires Inv(s) && Enabled(s, Handle(me)) && s.pcs[me].Ready?
    requires s.pool.status[me].r.reply && s.pool.status[me].r.tid in s.life && s.life[s.pool.status[me].r.tid].inTree
    ensures var r := s.pool.status[me].r;
            && L.Enabled(View(s, r.tid), L.Take(r.more))
            && View(Next(s, Handle(me)), r.tid) == L.Next(View(s, r.tid), L.Take(r.more))
  {
    var r := s.pool.status[me].r;
    var s' := Next(s, Handle(me));
    forall other: nat ensures !BusyOn(s, other, r.tid) {
      assert S.Handles(s.pool.status[me], r.tid);
    }
    WorkerOff(s, r.tid);
    WorkerIs(s', me, r.tid);
  }

  /** Every further step of a reply is a step of its transaction. */
  lemma {:induction false} BusyView(s: Sys, me: nat)
    requires Inv(s) && Enabled(s, Handle(me)) && s.pcs[me].Busy?
    ensures var tid := s.pool.status[me].r.tid;
            && tid in s.life && L.Enabled(View(s, tid), L.Work) && View(s, tid).worker == s.pcs[me].w
            && View(Next(s, Handle(me)), tid) == L.Next(View(s, tid), L.Work)
  {
    var tid := s.pool.status[me].r.tid;
    var s' := Next(s, Handle(me));
    assert Engaged(s, me);
    assert BusyOn(s, me, tid);
    WorkerIs(s, me, tid);
    if s'.pcs[me].Busy? {
      WorkerIs(s', me, tid);
    } else {
      forall other: nat ensures !BusyOn(s', other, tid) {
        assert S.Handles(s.pool.status[me], tid);
      }
      WorkerOff(s', tid);
    }
  }

  /** Handling one transaction leaves the others as they were. */
  lemma {:induction false} HandleElsewhere(s: Sys, me: nat, tid: Tid)
    requires Inv(s) && Enabled(s, Handle(me)) && tid in s.life
    requires !S.Handles(s.pool.status[me], tid)
    ensures tid in Next(s, Handle(me)).life && View(Next(s, Handle(me)), tid) == View(s, tid)
  {
    hide S.Inv, L.Inv;
    var s' := Next(s, Handle(me));
    WorkerSame(s, s', tid);
  }

  lemma {:induction false} HandleEngaged(s: Sys, me: nat)
    requires Inv(s) && Enabled(s, Handle(me))
    ensures var s' := Next(s, Handle(me));
            && Shape(s') && S.Inv(s'.pool)
            && (forall i :: 0 <= i < |s'.pcs| && s'.pcs[i].Busy? ==> Engaged(s', i))
            && (forall tid :: tid in s'.life <==> tid in s.life)
            && (forall tid :: tid in s'.life ==> s'.life[tid].worker.Off?)
  {
    hide S.Inv, L.Inv;
    var s' := Next(s, Handle(me));
    forall i | 0 <= i < |s'.pcs| && s'.pcs[i].Busy? ensures Engaged(s', i) {
      if i != me { assert Engaged(s, i); } else if s.pcs[me].Busy? { assert Engaged(s, me); }
    }
  }

  lemma {:induction false} HandleKeeps(s: Sys, me: nat)
    requires Inv(s) && Enabled(s, Handle(me))
    ensures Inv(Next(s, Handle(me)))
  {
    hide S.Inv, L.Inv;
    var s' := Next(s, Handle(me));
    HandleEngaged(s, me);
    forall tid | tid in s'.life ensures L.Inv(View(s', tid)) {
      HandleLife(s, me, tid);
    }
  }

  lemma {:induction false} HandleLife(s: Sys, me: nat, tid: Tid)
    requires Inv(s) && Enabled(s, Handle(me)) && tid in s.life
    ensures tid in Next(s, Handle(me)).life && L.Inv(View(Next(s, Handle(me)), tid))
  {
    hide S.Inv, L.Inv, L.Next, L.Enabled, L.TakeStep, L.WorkStep;
    HandleFollows(s, me, tid);
    var acts := Acts(s, Handle(me), tid);
    if acts != [] {
      L.StepKeeps(View(s, tid), acts[0]);
    }
  }

  lemma {:induction false} ReadyNothing(s: Sys, me: nat, tid: Tid)
    requires Inv(s) && Enabled(s, Handle(me)) && tid in s.life && S.Handles(s.pool.status[me], tid)
    requires s.pcs[me].Ready? && !s.life[tid].inTree
    ensures tid in Next(s, Handle(me)).life && View(Next(s, Handle(me)), tid) == View(s, tid)
  {
  }

  /** A step of another actor is a step of its transaction. */
  lemma {:induction false} ActView(s: Sys, tid: Tid, b: L.Step)
    requires Inv(s) && Enabled(s, Act(tid, b))
    ensures L.Enabled(View(s, tid), b)
    ensures View(Next(s, Act(tid, b)), tid) == L.Next(View(s, tid), b)
    ensures Next(s, Act(tid, b)).life[tid].worker.Off?
  {
    hide S.Inv, L.Inv, L.Next, L.Enabled;
    var s' := Next(s, Act(tid, b));
    WorkerSame(s, s', tid);
    if b.CleanTake? { WorkerOff(s, tid); }
    L.WorkerApart(s.life[tid], WorkerOf(s, tid), b);
  }

  lemma {:induction false} ActKeeps(s: Sys, tid: Tid, b: L.Step)
    requires Inv(s) && Enabled(s, Act(tid, b))
    ensures Inv(Next(s, Act(tid, b)))
  {
    hide S.Inv, L.Inv;
    var s' := Next(s, Act(tid, b));
    ActView(s, tid, b);
    L.StepKeeps(View(s, tid), b);
    forall i | 0 <= i < |s'.pcs| && s'.pcs[i].Busy? ensures Engaged(s', i) {
      assert Engaged(s, i);
    }
    forall x | x in s'.life ensures s'.life[x].worker.Off? && L.Inv(View(s', x)) {
      WorkerSame(s, s', x);
    }
  }

  lemma {:induction false} AllocKeeps(s: Sys, tid: Tid)
    requires Inv(s) && Enabled(s, Alloc(tid))
    ensures Inv(Next(s, Alloc(tid)))
  {
    hide S.Inv;
    var s' := Next(s, Alloc(tid));
    forall i | 0 <= i < |s'.pcs| && s'.pcs[i].Busy? ensures Engaged(s', i) {
      assert Engaged(s, i);
    }
    forall x | x in s'.life ensures s'.life[x].worker.Off? && L.Inv(View(s', x)) {
      WorkerSame(s, s', x);
      if x == tid {
        assert forall me: nat :: !BusyOn(s, me, tid);
        WorkerOff(s, tid);
      }
    }
  }

  lemma {:induction false} StepKeeps(s: Sys, a: Step)
    requires Inv(s) && Enabled(s, a)
    ensures Inv(Next(s, a))
  {
    match a
    case Alloc(tid) => AllocKeeps(s, tid);
    case Pool(b) => PoolKeeps(s, b);
    case Handle(me) => HandleKeeps(s, me);
    case Act(tid, b) => ActKeeps(s, tid, b);
  }

  // --------------------------------------------------------------------------
  // Runs
  // --------------------------------------------------------------------------

  function Init(threads: nat): Sys {
    Sys(S.Init(threads), seq(threads, _ => Done), map[])
  }

  ghost function After(threads: nat, run: seq<Step>): Option<Sys> {
    if run == [] then Some(Init(threads))
    else
      var before := After(threads, run[..|run| - 1]);
      if before.Some? && Shape(before.value) && Enabled(before.value, run[|run| - 1])
      then Some(Next(before.value, run[|run| - 1]))
      else None
  }

  lemma {:induction false} RunInv(threads: nat, run: seq<Step>)
    requires After(threads, run).Some?
    ensures Inv(After(threads, run).value)
  {
    if run != [] {
      RunInv(threads, run[..|run| - 1]);
      StepKeeps(After(threads, run[..|run| - 1]).value, run[|run| - 1]);
    }
  }

  // --------------------------------------------------------------------------
  // Every run of the whole is a run of each transaction
  // --------------------------------------------------------------------------

  /** The step that a transaction takes in a step of the whole, if any. */
  ghost function Acts(s: Sys, a: Step, tid: Tid): seq<L.Step>
    requires Shape(s) && Enabled(s, a)
  {
    match a
    case Alloc(_) => []
    case Pool(_) => []
    case Handle(me) =>
      if tid !in s.life || !S.Handles(s.pool.status[me], tid) then []
      else if s.pcs[me].Busy? then [L.Work]
      else if s.life[tid].inTree then [L.Take(s.pool.status[me].r.more)]
      else []
    case Act(t, b) => if t == tid then [b] else []
  }

  ghost function Project(threads: nat, run: seq<Step>, tid: Tid): seq<L.Step>
    requires After(threads, run).Some?
  {
    if run == [] then []
    else
      var before := run[..|run| - 1];
      Project(threads, before, tid) + Acts(After(threads, before).value, run[|run| - 1], tid)
  }

  ghost predicate Follows(s: Sys, s': Sys, tid: Tid, acts: seq<L.Step>) {
    && tid in s.life && tid in s'.life && |acts| <= 1
    && (acts == [] ==> View(s', tid) == View(s, tid))
    && (|acts| == 1 ==> L.Enabled(View(s, tid), acts[0]) && View(s', tid) == L.Next(View(s, tid), acts[0]))
  }

  lemma {:induction false} PoolFollows(s: Sys, b: S.Step, tid: Tid)
    requires Inv(s) && Enabled(s, Pool(b)) && tid in s.life
    ensures Follows(s, Next(s, Pool(b)), tid, [])
  {
    hide S.Inv;
    var s' := Next(s, Pool(b));
    S.StepKeeps(s.pool, b);
    PoolShape(s.pool, b);
    forall me: nat ensures BusyOn(s, me, tid) <==> BusyOn(s', me, tid)
                   ensures BusyOn(s, me, tid) ==> s'.pcs[me] == s.pcs[me] { }
    WorkerSame(s, s', tid);
  }

  lemma {:induction false} HandleFollows(s: Sys, me: nat, tid: Tid)
    requires Inv(s) && Enabled(s, Handle(me)) && tid in s.life
    ensures Follows(s, Next(s, Handle(me)), tid, Acts(s, Handle(me), tid))
  {
    hide S.Inv, L.Inv, L.Next, L.Enabled, L.TakeStep, L.WorkStep;
    if !S.Handles(s.pool.status[me], tid) {
      HandleElsewhere(s, me, tid);
    } else if s.pcs[me].Busy? {
      BusyView(s, me);
    } else if s.life[tid].inTree {
      ReadyView(s, me);
    } else {
      ReadyNothing(s, me, tid);
    }
  }

  lemma {:induction false} StepFollows(s: Sys, a: Step, tid: Tid)
    requires Inv(s) && Enabled(s, a) && tid in s.life
    ensures Follows(s, Next(s, a), tid, Acts(s, a, tid))
  {
    hide S.Inv, L.Inv, L.Next, L.Enabled;
    match a
    case Alloc(_) => WorkerSame(s, Next(s, a), tid);
    case Pool(b) => PoolFollows(s, b, tid);
    case Handle(me) => HandleFollows(s, me, tid);
    case Act(t, b) =>
      if t == tid { ActView(s, tid, b); } else { WorkerSame(s, Next(s, a), tid); }
  }

  /** A transaction that is not allocated takes no step, and starts its life in the initial state. */
  lemma {:induction false} StepStarts(s: Sys, a: Step, tid: Tid)
    requires Inv(s) && Enabled(s, a) && tid !in s.life
    ensures Acts(s, a, tid) == []
    ensures tid in Next(s, a).life ==> View(Next(s, a), tid) == L.Init()
  {
    if a == Alloc(tid) {
      var s' := Next(s, a);
      forall me: nat ensures !BusyOn(s', me, tid) {
        if me < |s.pcs| && s.pcs[me].Busy? { assert Engaged(s, me); }
      }
      WorkerOff(s', tid);
    }
  }

  /** Every run of the whole is, for each transaction, a run of its life. */
  lemma {:induction false} Projects(threads: nat, run: seq<Step>, tid: Tid)
    requires After(threads, run).Some?
    ensures var s := After(threads, run).value;
            var acts := Project(threads, run, tid);
            && (tid !in s.life ==> acts == [])
            && (tid in s.life ==> L.After(L.Init(), acts) == Some(View(s, tid)))
  {
    hide Inv, Enabled, Next, Acts, View, L.Next, L.Enabled;
    if run == [] {
      return;
    }
    var before, a := run[..|run| - 1], run[|run| - 1];
    var s := After(threads, before).value;
    Projects(threads, before, tid);
    RunInv(threads, before);
    if tid in s.life {
      StepFollows(s, a, tid);
      Extends(L.Init(), Project(threads, before, tid), s, Next(s, a), tid, Acts(s, a, tid));
    } else {
      StepStarts(s, a, tid);
    }
  }

  lemma {:induction false} Extends(l: L.Life, run: seq<L.Step>, s: Sys, s': Sys, tid: Tid, acts: seq<L.Step>)
    requires Follows(s, s', tid, acts) && L.After(l, run) == Some(View(s, tid))
    ensures L.After(l, run + acts) == Some(View(s', tid))
  {
    hide View, L.Next, L.Enabled;
    if acts == [] {
      assert run + acts == run;
    } else {
      assert acts == [acts[0]];
      L.RunMore(l, run, acts[0]);
    }
  }

  lemma {:induction false} ProjectPrefix(threads: nat, run: seq<Step>, tid: Tid, k: nat)
    requires After(threads, run).Some? && k <= |run|
    ensures After(threads, run[..k]).Some?
    ensures Project(threads, run[..k], tid) <= Project(threads, run, tid)
    decreases |run|
  {
    hide Enabled, Next, Acts;
    if k == |run| {
      assert run[..k] == run;
    } else {
      assert run[..|run| - 1][..k] == run[..k];
      ProjectPrefix(threads, run[..|run| - 1], tid, k);
    }
  }

  /** On every run of the whole: once the final callback of a transaction has started, its callbacks are over. */
  lemma {:induction false} FinalForGood(threads: nat, run: seq<Step>, tid: Tid, k: nat)
    requires After(threads, run).Some? && k <= |run| && After(threads, run[..k]).Some?
    requires tid in After(threads, run[..k]).value.life
    requires L.Final in View(After(threads, run[..k]).value, tid).log
    ensures tid in After(threads, run).value.life
    ensures View(After(threads, run).value, tid).log == View(After(threads, run[..k]).value, tid).log
  {
    hide View, L.After, Acts, Next, Enabled;
    var acts, now := Project(threads, run, tid), Project(threads, run[..k], tid);
    Projects(threads, run, tid);
    Projects(threads, run[..k], tid);
    ProjectPrefix(threads, run, tid, k);
    assert now == acts[..|now|];
    if tid !in After(threads, run).value.life {
      NoStepsNoFinal(now);
    } else {
      L.FinalIsLast(acts, |now|);
    }
  }

  lemma {:induction false} NoStepsNoFinal(run: seq<L.Step>)
    requires L.After(L.Init(), run).Some? && L.Final in L.After(L.Init(), run).value.log
    ensures run != []
  {
  }

  // --------------------------------------------------------------------------
  // Every reply that a thread takes reaches its callback
  // --------------------------------------------------------------------------

  /** Thread `me` has taken a reply to the transaction and has not yet looked for it. */
  predicate ReadyOn(s: Sys, me: nat, tid: Tid) {
    me < |s.pcs| && me < |s.pool.status| && s.pcs[me].Ready? && S.Handles(s.pool.status[me], tid)
  }

  ghost predicate SomeReady(s: Sys, tid: Tid) {
    exists me: nat :: ReadyOn(s, me, tid)
  }

  /** The step in which a thread looks for the transaction of its reply and does not find it in the tree. */
  predicate Misses(s: Sys, a: Step, tid: Tid) {
    a.Handle? && ReadyOn(s, a.me, tid) && !(tid in s.life && s.life[tid].inTree)
  }

  /** How many replies of a run did not find the transaction. */
  ghost function Missed(threads: nat, run: seq<Step>, tid: Tid): nat
    requires After(threads, run).Some?
  {
    if run == [] then 0
    else
      var before := run[..|run| - 1];
      Missed(threads, before, tid) + L.Bit(Misses(After(threads, before).value, run[|run| - 1], tid))
  }

  lemma {:induction false} TakesConcat(a: seq<L.Step>, b: seq<L.Step>)
    requires |b| <= 1
    ensures L.Takes(a + b) == L.Takes(a) + L.Takes(b)
  {
    if b == [] {
      assert a + b == a;
    } else {
      assert (a + b)[..|a|] == a && b[..0] == [];
    }
  }

  function TakenReplies(s: Sys, tid: Tid): nat {
    |S.Replies(s.pool.taken, tid)|
  }

  lemma {:induction false} OnlyOne(p: S.Pool, me: nat, x: nat, tid: Tid)
    requires S.Inv(p) && me < |p.status| && x < |p.status| && x != me && S.Handles(p.status[me], tid)
    ensures !S.Handles(p.status[x], tid)
  {
  }

  lemma {:induction false} RoundReplies(s: Sys, me: nat, tid: Tid)
    requires Inv(s) && Enabled(s, Pool(S.Round(me)))
    ensures var s' := Next(s, Pool(S.Round(me)));
            TakenReplies(s', tid) + L.Bit(SomeReady(s, tid)) == TakenReplies(s, tid) + L.Bit(SomeReady(s', tid))
  {
    hide S.Replies, S.Inv, S.Find, L.Inv, S.TakenOff, S.Idle;
    PoolShape(s.pool, S.Round(me));
    var s' := Next(s, Pool(S.Round(me)));
    S.RoundTakes(s.pool, me);
    S.StepKeeps(s.pool, S.Round(me));
    forall x: nat | x != me ensures ReadyOn(s, x, tid) <==> ReadyOn(s', x, tid) { }
    assert !ReadyOn(s, me, tid);
    if !S.Idle(s.pool, me) {
      var k: nat, r :| S.TakenOff(s.pool.queue, s.pool.claims, me, k, r, s'.pool.queue)
                       && s'.pool.taken == s.pool.taken + [r] && s'.pool.status == s.pool.status[me := S.Processing(r)];
      S.RepliesConcat(s.pool.taken, [r], tid);
      S.RepliesOne(r, tid);
      if r.reply && r.tid == tid {
        assert ReadyOn(s', me, tid);
        forall x: nat ensures !ReadyOn(s, x, tid) {
          if x != me && x < |s.pcs| { OnlyOne(s'.pool, me, x, tid); }
        }
      } else {
        assert !ReadyOn(s', me, tid);
      }
    } else {
      assert !ReadyOn(s', me, tid);
    }
  }

  lemma {:induction false} HandleReplies(s: Sys, me: nat, tid: Tid)
    requires Inv(s) && Enabled(s, Handle(me))
    ensures var s' := Next(s, Handle(me));
            && TakenReplies(s', tid) == TakenReplies(s, tid)
            && L.Bit(SomeReady(s, tid)) == L.Bit(SomeReady(s', tid)) + L.Takes(Acts(s, Handle(me), tid))
                                           + L.Bit(Misses(s, Handle(me), tid))
  {
    hide L.Inv;
    var s' := Next(s, Handle(me));
    forall x: nat | x != me ensures ReadyOn(s, x, tid) <==> ReadyOn(s', x, tid) { }
    assert !ReadyOn(s', me, tid);
    if ReadyOn(s, me, tid) {
      forall x: nat ensures !ReadyOn(s', x, tid) {
        if x != me && x < |s.pcs| { OnlyOne(s.pool, me, x, tid); }
      }
    }
    TakesOne(Acts(s, Handle(me), tid));
  }

  lemma {:induction false} TakesOne(acts: seq<L.Step>)
    requires |acts| <= 1
    ensures L.Takes(acts) == L.Bit(|acts| == 1 && acts[0].Take?)
  {
  }

  lemma {:induction false} StepReplies(s: Sys, a: Step, tid: Tid)
    requires Inv(s) && Enabled(s, a)
    ensures TakenReplies(Next(s, a), tid) + L.Bit(SomeReady(s, tid)) ==
            TakenReplies(s, tid) + L.Bit(SomeReady(Next(s, a), tid))
            + L.Takes(Acts(s, a, tid)) + L.Bit(Misses(s, a, tid))
  {
    hide S.Inv, L.Inv, S.Replies;
    TakesOne(Acts(s, a, tid));
    match a
    case Handle(me) => HandleReplies(s, me, tid);
    case Pool(b) =>
      if b.Round? {
        RoundReplies(s, b.me, tid);
      } else {
        var s' := Next(s, a);
        forall x: nat ensures ReadyOn(s, x, tid) <==> ReadyOn(s', x, tid) { }
      }
    case _ =>
      var s' := Next(s, a);
      forall x: nat ensures ReadyOn(s, x, tid) <==> ReadyOn(s', x, tid) { }
  }

  /** What a thread has left to do with its request. */
  function Left(pc: Pc): nat {
    match pc
    case Ready => 6
    case Busy(Found(_)) => 5
    case Busy(InCall(_)) => 4
    case Busy(Called(_)) => 3
    case Busy(Dropped(_)) => 2
    case Busy(Off) => 1
    case Done => 0
  }

  /** Every step brings the thread closer to the end of its request, and no other thread moves. */
  lemma {:induction false} HandleShrinks(s: Sys, me: nat)
    requires Inv(s) && Enabled(s, Handle(me))
    ensures var s' := Next(s, Handle(me));
            && |s'.pcs| == |s.pcs| && Left(s'.pcs[me]) < Left(s.pcs[me]) && s'.pool == s.pool
            && forall i :: 0 <= i < |s.pcs| && i != me ==> s'.pcs[i] == s.pcs[i]
  {
    hide S.Inv, L.Inv;
    if s.pcs[me].Busy? { assert Engaged(s, me); }
  }

  lemma {:induction false} TakenIsTakes(threads: nat, run: seq<Step>, tid: Tid)
    requires After(threads, run).Some?
    ensures var s := After(threads, run).value;
            TakenReplies(s, tid) ==
            L.Takes(Project(threads, run, tid)) + Missed(threads, run, tid) + L.Bit(SomeReady(s, tid))
  {
    hide Inv, Enabled, Next, Acts, Misses, SomeReady, TakenReplies;
    if run == [] {
      NoneTaken(threads, tid);
    } else {
      var before, a := run[..|run| - 1], run[|run| - 1];
      var s := After(threads, before).value;
      TakenIsTakes(threads, before, tid);
      RunInv(threads, before);
      StepReplies(s, a, tid);
      ActsShort(s, a, tid);
      TakesConcat(Project(threads, before, tid), Acts(s, a, tid));
    }
  }

  lemma {:induction false} NoneTaken(threads: nat, tid: Tid)
    ensures TakenReplies(Init(threads), tid) == 0 && !SomeReady(Init(threads), tid)
  {
  }

  lemma {:induction false} ActsShort(s: Sys, a: Step, tid: Tid)
    requires Shape(s) && Enabled(s, a)
    ensures |Acts(s, a, tid)| <= 1
  {
  }

  /**
   On every run of the whole: each reply that a thread took has started its callback exactly once, or is about to
   look for its transaction or to start the callback, or did not find the transaction in the tree.
   */
  lemma {:induction false} RepliesReachCallback(threads: nat, run: seq<Step>, tid: Tid)
    requires After(threads, run).Some? && tid in After(threads, run).value.life
    ensures var s := After(threads, run).value;
            var l := View(s, tid);
            |S.Replies(s.pool.taken, tid)| == L.Count(l.log, L.Reply) + L.Bit(l.worker.Found?)
                                              + Missed(threads, run, tid) + L.Bit(SomeReady(s, tid))
  {
    hide View, Missed, SomeReady, L.Count, L.Takes, L.After;
    TakenIsTakes(threads, run, tid);
    Projects(threads, run, tid);
    L.CallbacksRun(Project(threads, run, tid));
  }

  /** On every run: replies, then at most one timeout, then at most one final callback; never two at once. */
  lemma {:induction false} CallbackDiscipline(threads: nat, run: seq<Step>, tid: Tid)
    requires After(threads, run).Some? && tid in After(threads, run).value.life
    ensures var l := View(After(threads, run).value, tid);
            && L.Ordered(l.log)
            && L.Bit(l.worker.InCall?) + L.Bit(l.timer.TimerInCall?) + L.Bit(l.phase.InFinalCall?) <= 1
            && (!l.phase.Alive? ==> l.refcnt == 0 && !l.inTree && !l.inList)
  {
    hide L.Ordered;
    RunInv(threads, run);
    Projects(threads, run, tid);
    L.CallbackOrder(Project(threads, run, tid));
    var l := View(After(threads, run).value, tid);
    L.CallbacksApart(l);
    if !l.phase.Alive? { L.DyingIsHidden(l); }
  }

  /**
   On every run, a thread in the middle of a reply, and any other actor, works on a transaction that is
   referenced.
   */
  lemma {:induction false} NoUseAfterFree(threads: nat, run: seq<Step>, a: Step)
    requires After(threads, run).Some? && Shape(After(threads, run).value) && Enabled(After(threads, run).value, a)
    ensures var s := After(threads, run).value;
            && (a.Handle? && s.pcs[a.me].Busy? ==> s.life[s.pool.status[a.me].r.tid].refcnt > 0)
            && (a.Act? && !a.b.Destroy? ==> s.life[a.tid].refcnt > 0)
  {
    RunInv(threads, run);
    var s := After(threads, run).value;
    if a.Handle? && s.pcs[a.me].Busy? {
      BusyView(s, a.me);
      L.NoTouchAfterZero(View(s, s.pool.status[a.me].r.tid), L.Work);
    }
    if a.Act? && !a.b.Destroy? {
      ActView(s, a.tid, a.b);
      L.NoTouchAfterZero(View(s, a.tid), a.b);
    }
  }
}
