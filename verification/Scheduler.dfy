/**
 The worker pool of an I/O node: requests wait in one list, and a table of
 claims keeps the replies of one transaction on one thread at a time.
 */
module Scheduler {
  import opened Basics

  type Tid = nat

  /** The part of a request's header that scheduling looks at. */
  datatype Req = Req(tid: Tid, reply: bool, more: bool)

  type Claims = seq<Option<Tid>>

  predicate Claimed(claims: Claims, tid: Tid) {
    Some(tid) in claims
  }

  /** The first thread that claims the transaction. */
  predicate FirstClaim(claims: Claims, tid: Tid, me: nat) {
    me < |claims| && claims[me] == Some(tid) && forall j :: 0 <= j < me ==> claims[j] != Some(tid)
  }

  /** Whether thread `me` may take the request now. */
  predicate Eligible(r: Req, claims: Claims, me: nat)
    requires me < |claims|
  {
    !r.reply || FirstClaim(claims, r.tid, me) || (!Claimed(claims, r.tid) && claims[me].None?)
  }

  /** What taking the request does to the claims. */
  function ClaimsAfter(r: Req, claims: Claims, me: nat): Claims
    requires me < |claims|
  {
    if !r.reply then claims
    else if r.more then claims[me := Some(r.tid)]
    else claims[me := None]
  }

  /** The first request the thread may take. */
  predicate Taken(queue: seq<Req>, claims: Claims, me: nat, k: nat)
    requires me < |claims|
  {
    k < |queue| && Eligible(queue[k], claims, me) && forall j :: 0 <= j < k ==> !Eligible(queue[j], claims, me)
  }

  class WorkPool {
    var list: seq<Req>
    var trans: Claims

    /** `take_request`: the position of the first request the thread may take, with the claims updated. */
    method TakeRequest(me: nat) returns (k: Option<nat>)
      requires me < |trans|
      modifies `trans
      ensures k.Some? ==> Taken(list, old(trans), me, k.value) && trans == ClaimsAfter(list[k.value], old(trans), me)
      ensures k.None? ==> trans == old(trans) && forall j :: 0 <= j < |list| ==> !Eligible(list[j], trans, me)
    {
      var n := 0;
      while n < |list|
        invariant n <= |list| && trans == old(trans)
        invariant forall j :: 0 <= j < n ==> !Eligible(list[j], trans, me)
      {
        var cmd := list[n];
        var ok := true;
        if !cmd.reply {
          return Some(n);
        }
        var i := 0;
        while i < |trans|
          invariant i <= |trans| && ok && trans == old(trans)
          invariant forall j :: 0 <= j < i ==> trans[j] != Some(cmd.tid)
        {
          if trans[i] == Some(cmd.tid) {
            if i == me {
              if !cmd.more {
                trans := trans[me := None];
              } else {
                assert trans[me := Some(cmd.tid)] == trans;
              }
              return Some(n);
            }
            ok := false;
            break;
          }
          i := i + 1;
        }
        if ok {
          if trans[me].None? {
            if cmd.more {
              trans := trans[me := Some(cmd.tid)];
            } else {
              assert trans[me := None] == trans;
            }
            return Some(n);
          }
        }
        n := n + 1;
      }
      return None;
    }

    /** The locked part of one round of a worker thread: drop the old claim, take a request off the list. */
    method Fetch(me: nat) returns (r: Option<Req>)
      requires me < |trans|
      modifies this
      ensures (list, trans, r) == Fetched(old(list), old(trans), me)
      ensures r.None? ==> list == old(list)
                          && forall j :: 0 <= j < |list| ==> list[j].reply && OtherClaims(old(trans), me, list[j].tid)
      ensures r.Some? ==> exists k :: TakenOff(old(list), old(trans), me, k, r.value, list)
    {
      trans := trans[me := None];
      FindFirst(list, trans, 0);
      ghost var free := trans;
      var k := TakeRequest(me);
      assert Find(list, free, 0) == k;
      ClaimedElsewhere(old(trans), me);
      if k.Some? {
        r := Some(list[k.value]);
        list := list[..k.value] + list[k.value + 1..];
        assert TakenOff(old(list), old(trans), me, k.value, r.value, list);
      } else {
        r := None;
      }
    }
  }

  /** A thread other than `me` claims the transaction. */
  predicate OtherClaims(claims: Claims, me: nat, tid: Tid) {
    exists j :: 0 <= j < |claims| && j != me && claims[j] == Some(tid)
  }

  /**
   The request at position `k`, and no other, is taken off the list: it is a command, or a reply that no other
   thread claims, and everything before it is a reply that another thread claims.
   */
  predicate TakenOff(list: seq<Req>, claims: Claims, me: nat, k: nat, r: Req, list': seq<Req>) {
    && k < |list| && r == list[k] && list' == list[..k] + list[k + 1..]
    && !(r.reply && OtherClaims(claims, me, r.tid))
    && forall j :: 0 <= j < k ==> list[j].reply && OtherClaims(claims, me, list[j].tid)
  }

  lemma {:induction false} ClaimedElsewhere(claims: Claims, me: nat)
    requires me < |claims|
    ensures forall tid: Tid :: Claimed(claims[me := None], tid) <==> OtherClaims(claims, me, tid)
  {
    var free := claims[me := None];
    forall tid: Tid ensures Claimed(free, tid) <==> OtherClaims(claims, me, tid) {
      if Claimed(free, tid) {
        var j :| 0 <= j < |free| && free[j] == Some(tid);
        assert claims[j] == Some(tid);
      }
      if OtherClaims(claims, me, tid) {
        var j :| 0 <= j < |claims| && j != me && claims[j] == Some(tid);
        assert free[j] == Some(tid);
      }
    }
  }

  /** The first position from `k` on whose request a thread without a claim may take. */
  function Find(queue: seq<Req>, claims: Claims, k: nat): Option<nat>
    decreases |queue| - k
  {
    if k >= |queue| then None
    else if !queue[k].reply || !Claimed(claims, queue[k].tid) then Some(k)
    else Find(queue, claims, k + 1)
  }

  /** The list, the claims and the request after a round of thread `me`. */
  function Fetched(queue: seq<Req>, claims: Claims, me: nat): (seq<Req>, Claims, Option<Req>)
    requires me < |claims|
  {
    var free := claims[me := None];
    match Find(queue, free, 0)
    case None => (queue, free, None)
    case Some(k) =>
      FindFirst(queue, free, 0);
      (queue[..k] + queue[k + 1..], ClaimsAfter(queue[k], free, me), Some(queue[k]))
  }

  lemma {:induction false} FindFirst(queue: seq<Req>, claims: Claims, k: nat)
    ensures var r := Find(queue, claims, k);
            match r
            case Some(m) =>
              && k <= m < |queue| && (!queue[m].reply || !Claimed(claims, queue[m].tid))
              && forall j :: k <= j < m ==> queue[j].reply && Claimed(claims, queue[j].tid)
            case None => forall j :: k <= j < |queue| ==> queue[j].reply && Claimed(claims, queue[j].tid)
    decreases |queue| - k
  {
    if k < |queue| && queue[k].reply && Claimed(claims, queue[k].tid) {
      FindFirst(queue, claims, k + 1);
    }
  }

  // --------------------------------------------------------------------------
  // Runs of a pool
  // --------------------------------------------------------------------------

  /** A thread waits for work, processes a request, or has finished it and not yet dropped its claim. */
  datatype Status = Waiting | Processing(r: Req) | Finished(r: Req)

  /** `arrived` and `taken` record the history; `ended` the transactions whose last reply has arrived. */
  datatype Pool = Pool(queue: seq<Req>, claims: Claims, status: seq<Status>,
                       arrived: seq<Req>, taken: seq<Req>, ended: set<Tid>)

  datatype Step = Arrive(r: Req) | Round(me: nat) | Finish(me: nat)

  /** Replies arrive only until the one without MORE. */
  predicate Enabled(s: Pool, a: Step)
    requires |s.claims| == |s.status|
  {
    match a
    case Arrive(r) => r.reply ==> r.tid !in s.ended
    case Round(me) => me < |s.status| && !s.status[me].Processing?
    case Finish(me) => me < |s.status| && s.status[me].Processing?
  }

  function Next(s: Pool, a: Step): Pool
    requires |s.claims| == |s.status| && Enabled(s, a)
  {
    match a
    case Arrive(r) =>
      s.(queue := s.queue + [r], arrived := s.arrived + [r],
         ended := if r.reply && !r.more then s.ended + {r.tid} else s.ended)
    case Round(me) =>
      var (queue, claims, r) := Fetched(s.queue, s.claims, me);
      var s' := s.(queue := queue, claims := claims);
      if r.None? then s'.(status := s.status[me := Waiting])
      else s'.(status := s.status[me := Processing(r.value)], taken := s.taken + [r.value])
    case Finish(me) => s.(status := s.status[me := Finished(s.status[me].r)])
  }

  /** The replies of one transaction, in order. */
  function Replies(q: seq<Req>, tid: Tid): seq<Req> {
    if q == [] then []
    else
      var r := q[|q| - 1];
      Replies(q[..|q| - 1], tid) + (if r.reply && r.tid == tid then [r] else [])
  }

  /** The requests that are no replies, in order. */
  function Commands(q: seq<Req>): seq<Req> {
    if q == [] then []
    else Commands(q[..|q| - 1]) + (if q[|q| - 1].reply then [] else [q[|q| - 1]])
  }

  predicate Handles(st: Status, tid: Tid) {
    st.Processing? && st.r.reply && st.r.tid == tid
  }

  /** A thread claims exactly the transaction of the reply with MORE that it took last. */
  function ClaimOf(st: Status): Option<Tid> {
    if !st.Waiting? && st.r.reply && st.r.more then Some(st.r.tid) else None
  }

  ghost predicate ClaimsExact(s: Pool) {
    |s.claims| == |s.status| && forall i :: 0 <= i < |s.claims| ==> s.claims[i] == ClaimOf(s.status[i])
  }

  /** Replies are taken in the order of their arrival. */
  ghost predicate InOrder(s: Pool) {
    forall tid :: Replies(s.taken, tid) + Replies(s.queue, tid) == Replies(s.arrived, tid)
  }

  /** `a` is `b` with some requests left out. */
  predicate Within(a: seq<Req>, b: seq<Req>) {
    a == [] || (b != [] && (Within(a, b[..|b| - 1])
                            || (a[|a| - 1] == b[|b| - 1] && Within(a[..|a| - 1], b[..|b| - 1]))))
  }

  lemma {:induction false} WithinMore(a: seq<Req>, b: seq<Req>, x: Req)
    requires Within(a, b)
    ensures Within(a, b + [x]) && Within(a + [x], b + [x])
  {
    assert (b + [x])[..|b|] == b && (a + [x])[..|a|] == a;
  }

  lemma {:induction false} WithinWithout(a: seq<Req>, b: seq<Req>, k: nat)
    requires Within(a, b) && k < |a|
    ensures Within(Without(a, k), b)
    decreases |b|
  {
    var b', x := b[..|b| - 1], b[|b| - 1];
    assert b == b' + [x];
    if Within(a, b') {
      WithinWithout(a, b', k);
      WithinMore(Without(a, k), b', x);
    } else {
      var a' := a[..|a| - 1];
      assert a == a' + [x] && Within(a', b');
      if k == |a| - 1 {
        assert Without(a, k) == a';
        WithinMore(a', b', x);
      } else {
        WithinWithout(a', b', k);
        WithinMore(Without(a', k), b', x);
        assert Without(a, k) == Without(a', k) + [x];
      }
    }
  }

  /**
   Every request that arrived is either queued or was taken, once; what is queued is in the order of its arrival,
   and commands are taken in that order.
   */
  ghost predicate Conserved(s: Pool) {
    && multiset(s.taken) + multiset(s.queue) == multiset(s.arrived)
    && Commands(s.taken) + Commands(s.queue) == Commands(s.arrived)
    && Within(s.queue, s.arrived)
  }

  /** A last reply has nothing of its transaction behind it. */
  ghost predicate LastIsLast(queue: seq<Req>, ended: set<Tid>) {
    forall i :: 0 <= i < |queue| && queue[i].reply && !queue[i].more ==>
      && queue[i].tid in ended
      && forall j :: i < j < |queue| ==> !(queue[j].reply && queue[j].tid == queue[i].tid)
  }

  predicate Queued(queue: seq<Req>, tid: Tid) {
    exists i :: 0 <= i < |queue| && queue[i].reply && queue[i].tid == tid
  }

  /** Once a last reply is taken, no reply of its transaction is queued. */
  ghost predicate LastTaken(s: Pool) {
    forall i :: 0 <= i < |s.status| && s.status[i].Processing? && s.status[i].r.reply && !s.status[i].r.more ==>
      s.status[i].r.tid in s.ended && !Queued(s.queue, s.status[i].r.tid)
  }

  /** No two threads process replies of one transaction. */
  ghost predicate Exclusive(status: seq<Status>) {
    forall i, j, tid ::
      0 <= i < |status| && 0 <= j < |status| && Handles(status[i], tid) && Handles(status[j], tid) ==> i == j
  }

  ghost predicate Inv(s: Pool) {
    && ClaimsExact(s) && InOrder(s) && LastIsLast(s.queue, s.ended) && LastTaken(s) && Exclusive(s.status)
    && Conserved(s)
  }

  lemma {:induction false} RepliesConcat(a: seq<Req>, b: seq<Req>, tid: Tid)
    ensures Replies(a + b, tid) == Replies(a, tid) + Replies(b, tid)
  {
    if b == [] {
      assert a + b == a;
    } else {
      RepliesConcat(a, b[..|b| - 1], tid);
      assert (a + b)[..|a + b| - 1] == a + b[..|b| - 1];
    }
  }

  lemma {:induction false} CommandsConcat(a: seq<Req>, b: seq<Req>)
    ensures Commands(a + b) == Commands(a) + Commands(b)
  {
    if b == [] {
      assert a + b == a;
    } else {
      CommandsConcat(a, b[..|b| - 1]);
      assert (a + b)[..|a + b| - 1] == a + b[..|b| - 1];
    }
  }

  lemma {:induction false} NoCommands(q: seq<Req>)
    requires forall i :: 0 <= i < |q| ==> q[i].reply
    ensures Commands(q) == []
  {
    if q != [] { NoCommands(q[..|q| - 1]); }
  }

  lemma {:induction false} CommandsOne(r: Req)
    ensures Commands([r]) == if r.reply then [] else [r]
  {
  }

  lemma {:induction false} RepliesOne(r: Req, tid: Tid)
    ensures Replies([r], tid) == if r.reply && r.tid == tid then [r] else []
  {
  }

  lemma {:induction false} NoReplies(q: seq<Req>, tid: Tid)
    requires !Queued(q, tid)
    ensures Replies(q, tid) == []
  {
    if q != [] {
      var p := q[..|q| - 1];
      forall i | 0 <= i < |p| ensures !(p[i].reply && p[i].tid == tid) { assert p[i] == q[i]; }
      NoReplies(p, tid);
    }
  }

  /** The request taken is not behind an earlier reply of its transaction. */
  lemma {:induction false} NothingBefore(queue: seq<Req>, claims: Claims, k: nat)
    requires Find(queue, claims, 0) == Some(k)
    ensures k < |queue|
    ensures queue[k].reply ==> !Claimed(claims, queue[k].tid) && !Queued(queue[..k], queue[k].tid)
  {
    FindFirst(queue, claims, 0);
  }

  function Without(queue: seq<Req>, k: nat): seq<Req>
    requires k < |queue|
  {
    queue[..k] + queue[k + 1..]
  }

  lemma {:induction false} TakenInOrder(queue: seq<Req>, taken: seq<Req>, k: nat, tid: Tid)
    requires k < |queue| && (queue[k].reply ==> !Queued(queue[..k], queue[k].tid))
    ensures Replies(taken + [queue[k]], tid) + Replies(Without(queue, k), tid) ==
            Replies(taken, tid) + Replies(queue, tid)
  {
    hide Replies;
    var r := queue[k];
    assert queue == queue[..k] + ([r] + queue[k + 1..]);
    RepliesConcat(taken, [r], tid);
    RepliesConcat(queue[..k], queue[k + 1..], tid);
    RepliesConcat(queue[..k], [r] + queue[k + 1..], tid);
    RepliesConcat([r], queue[k + 1..], tid);
    RepliesOne(r, tid);
    if r.reply && r.tid == tid { NoReplies(queue[..k], tid); }
    Regrouped(Replies(taken, tid), Replies(queue[..k], tid), Replies([r], tid), Replies(queue[k + 1..], tid));
  }

  lemma {:induction false} Regrouped(t: seq<Req>, b: seq<Req>, r: seq<Req>, a: seq<Req>)
    requires b == [] || r == []
    ensures (t + r) + (b + a) == t + (b + (r + a))
  {
  }

  /** Taking a request with no command before it keeps all requests, and the commands in order. */
  lemma {:induction false} TakenConserved(queue: seq<Req>, taken: seq<Req>, k: nat)
    requires k < |queue| && forall j :: 0 <= j < k ==> queue[j].reply
    ensures multiset(taken + [queue[k]]) + multiset(Without(queue, k)) == multiset(taken) + multiset(queue)
    ensures Commands(taken + [queue[k]]) + Commands(Without(queue, k)) == Commands(taken) + Commands(queue)
  {
    hide Commands;
    var r := queue[k];
    assert queue == queue[..k] + ([r] + queue[k + 1..]);
    CommandsConcat(taken, [r]);
    CommandsConcat(queue[..k], queue[k + 1..]);
    CommandsConcat(queue[..k], [r] + queue[k + 1..]);
    CommandsConcat([r], queue[k + 1..]);
    CommandsOne(r);
    NoCommands(queue[..k]);
    Regrouped(Commands(taken), Commands(queue[..k]), Commands([r]), Commands(queue[k + 1..]));
  }

  lemma {:induction false} QueuedWithout(queue: seq<Req>, k: nat, tid: Tid)
    requires k < |queue| && Queued(Without(queue, k), tid)
    ensures Queued(queue[..k], tid) || Queued(queue[k + 1..], tid)
    ensures Queued(queue, tid)
  {
  }

  lemma {:induction false} LastWithout(queue: seq<Req>, k: nat, ended: set<Tid>)
    requires k < |queue| && LastIsLast(queue, ended)
    ensures LastIsLast(Without(queue, k), ended)
    ensures queue[k].reply && !queue[k].more ==> queue[k].tid in ended && !Queued(queue[k + 1..], queue[k].tid)
  {
  }

  /** Nobody else handles the transaction of the reply that a thread takes. */
  lemma {:induction false} NobodyElse(s: Pool, me: nat, k: nat, j: nat)
    requires Inv(s) && me < |s.status| && Find(s.queue, s.claims[me := None], 0) == Some(k)
    requires j < |s.status| && j != me
    ensures k < |s.queue| && (s.queue[k].reply ==> !Handles(s.status[j], s.queue[k].tid))
  {
    NothingBefore(s.queue, s.claims[me := None], k);
    if s.queue[k].reply && Handles(s.status[j], s.queue[k].tid) {
      assert s.claims[me := None][j] == ClaimOf(s.status[j]);
      assert Queued(s.queue, s.queue[k].tid);
    }
  }

  lemma {:induction false} ArriveKeeps(s: Pool, r: Req)
    requires Inv(s) && Enabled(s, Arrive(r))
    ensures Inv(Next(s, Arrive(r)))
  {
    hide Conserved;
    ArriveConserved(s, r);
  }

  lemma {:induction false} ArriveConserved(s: Pool, r: Req)
    requires |s.claims| == |s.status| && Conserved(s) && Enabled(s, Arrive(r))
    ensures Conserved(Next(s, Arrive(r)))
  {
    hide Commands, Within;
    CommandsConcat(s.queue, [r]);
    CommandsConcat(s.arrived, [r]);
    Regrouped(Commands(s.taken), [], Commands(s.queue), Commands([r]));
    assert [] + (Commands(s.queue) + Commands([r])) == Commands(s.queue) + Commands([r]);
    assert [] + Commands([r]) == Commands([r]);
    WithinMore(s.queue, s.arrived, r);
  }

  lemma {:induction false} RoundConserved(s: Pool, me: nat)
    requires |s.claims| == |s.status| && Conserved(s) && Enabled(s, Round(me))
    ensures Conserved(Next(s, Round(me)))
  {
    hide Commands, Within;
    var free := s.claims[me := None];
    FindFirst(s.queue, free, 0);
    if Find(s.queue, free, 0).Some? {
      var k := Find(s.queue, free, 0).value;
      TakenConserved(s.queue, s.taken, k);
      WithinWithout(s.queue, s.arrived, k);
      assert Next(s, Round(me)).queue == Without(s.queue, k);
    }
  }

  lemma {:induction false} RoundLastTaken(s: Pool, me: nat, k: nat)
    requires Inv(s) && Enabled(s, Round(me)) && Find(s.queue, s.claims[me := None], 0) == Some(k)
    ensures LastTaken(Next(s, Round(me)))
  {
    var s' := Next(s, Round(me));
    NothingBefore(s.queue, s.claims[me := None], k);
    LastWithout(s.queue, k, s.ended);
    assert s'.queue == Without(s.queue, k);
    forall i | 0 <= i < |s'.status| && s'.status[i].Processing? && s'.status[i].r.reply && !s'.status[i].r.more
      ensures s'.status[i].r.tid in s'.ended && !Queued(s'.queue, s'.status[i].r.tid)
    {
      if Queued(s'.queue, s'.status[i].r.tid) { QueuedWithout(s.queue, k, s'.status[i].r.tid); }
    }
  }

  lemma {:induction false} RoundExclusive(s: Pool, me: nat, k: nat)
    requires Inv(s) && Enabled(s, Round(me)) && Find(s.queue, s.claims[me := None], 0) == Some(k)
    ensures Exclusive(Next(s, Round(me)).status)
  {
    var s' := Next(s, Round(me));
    forall j | 0 <= j < |s.status| && j != me
      ensures k < |s.queue| && (s.queue[k].reply ==> !Handles(s.status[j], s.queue[k].tid))
    {
      NobodyElse(s, me, k, j);
    }
  }

  lemma {:induction false} RoundInOrder(s: Pool, me: nat, k: nat)
    requires Inv(s) && Enabled(s, Round(me)) && Find(s.queue, s.claims[me := None], 0) == Some(k)
    ensures InOrder(Next(s, Round(me)))
  {
    hide LastIsLast, LastTaken, Exclusive, Conserved, Replies;
    var s' := Next(s, Round(me));
    NothingBefore(s.queue, s.claims[me := None], k);
    forall tid ensures Replies(s'.taken, tid) + Replies(s'.queue, tid) == Replies(s'.arrived, tid) {
      TakenInOrder(s.queue, s.taken, k, tid);
    }
  }

  lemma {:induction false} RoundKeeps(s: Pool, me: nat)
    requires Inv(s) && Enabled(s, Round(me))
    ensures Inv(Next(s, Round(me)))
  {
    hide Conserved, InOrder, LastIsLast;
    RoundConserved(s, me);
    match Find(s.queue, s.claims[me := None], 0)
    case None => StaysInOrder(s, Next(s, Round(me)));
    case Some(k) =>
      hide LastTaken, Exclusive;
      NothingBefore(s.queue, s.claims[me := None], k);
      LastWithout(s.queue, k, s.ended);
      RoundInOrder(s, me, k);
      RoundLastTaken(s, me, k);
      RoundExclusive(s, me, k);
  }

  lemma {:induction false} StaysInOrder(s: Pool, s': Pool)
    requires InOrder(s) && s'.taken == s.taken && s'.queue == s.queue && s'.arrived == s.arrived
    ensures InOrder(s')
  {
    forall tid ensures Replies(s'.taken, tid) + Replies(s'.queue, tid) == Replies(s'.arrived, tid) {
      assert Replies(s.taken, tid) + Replies(s.queue, tid) == Replies(s.arrived, tid);
    }
  }

  lemma {:induction false} FinishKeeps(s: Pool, me: nat)
    requires Inv(s) && Enabled(s, Finish(me))
    ensures Inv(Next(s, Finish(me)))
  {
  }

  lemma {:induction false} StepKeeps(s: Pool, a: Step)
    requires Inv(s) && Enabled(s, a)
    ensures Inv(Next(s, a))
  {
    match a
    case Arrive(r) => ArriveKeeps(s, r);
    case Round(me) => RoundKeeps(s, me);
    case Finish(me) => FinishKeeps(s, me);
  }

  function Init(threads: nat): Pool {
    Pool([], seq(threads, _ => None), seq(threads, _ => Waiting), [], [], {})
  }

  /** The pool after a sequence of steps; none when some step was not enabled. */
  ghost function After(threads: nat, run: seq<Step>): Option<Pool> {
    if run == [] then Some(Init(threads))
    else
      var before := After(threads, run[..|run| - 1]);
      if before.Some? && |before.value.claims| == |before.value.status| && Enabled(before.value, run[|run| - 1])
      then Some(Next(before.value, run[|run| - 1]))
      else None
  }

  lemma {:induction false} RunInv(threads: nat, run: seq<Step>)
    requires After(threads, run).Some?
    ensures Inv(After(threads, run).value)
  {
    if run != [] {
      RunInv(threads, run[..|run| - 1]);
      StepKeeps(After(threads, run[..|run| - 1]).value, run[|run| - 1]);
    }
  }

  /** What a round does: one request, if any may be taken, goes from the queue to the thread. */
  lemma {:induction false} RoundTakes(s: Pool, me: nat)
    requires Inv(s) && Enabled(s, Round(me))
    ensures var s' := Next(s, Round(me));
            if Idle(s, me) then s'.queue == s.queue && s'.taken == s.taken && s'.status == s.status[me := Waiting]
            else exists k: nat, r :: TakenOff(s.queue, s.claims, me, k, r, s'.queue)
                                     && s'.taken == s.taken + [r] && s'.status == s.status[me := Processing(r)]
  {
    hide InOrder, LastIsLast, LastTaken, Exclusive, Conserved, Find, Claimed, OtherClaims, ClaimedByOther;
    var free := s.claims[me := None];
    var s' := Next(s, Round(me));
    FindFirst(s.queue, free, 0);
    ClaimedFree(s, me);
    ClaimedElsewhere(s.claims, me);
    match Find(s.queue, free, 0)
    case None => assert Idle(s, me);
    case Some(k) =>
      var r := s.queue[k];
      assert !Idle(s, me);
      assert TakenOff(s.queue, s.claims, me, k, r, s'.queue);
      assert s'.taken == s.taken + [r] && s'.status == s.status[me := Processing(r)];
  }

  /** The end of processing: the thread may look for work again, and nothing else changes. */
  lemma {:induction false} FinishEnds(s: Pool, me: nat)
    requires Inv(s) && Enabled(s, Finish(me))
    ensures var s' := Next(s, Finish(me));
            && Enabled(s', Round(me)) && s'.queue == s.queue && s'.taken == s.taken && s'.claims == s.claims
            && |s'.status| == |s.status| && forall i :: 0 <= i < |s.status| && i != me ==> s'.status[i] == s.status[i]
  {
  }

  /** The requests that arrive on a run, in order. */
  function Arrivals(run: seq<Step>): seq<Req> {
    if run == [] then []
    else Arrivals(run[..|run| - 1]) + (if run[|run| - 1].Arrive? then [run[|run| - 1].r] else [])
  }

  /**
   On every run: what has arrived, and nothing else, is queued or was taken, each once, and the commands among
   it are taken in the order of their arrival.
   */
  lemma {:induction false} NothingLost(threads: nat, run: seq<Step>)
    requires After(threads, run).Some?
    ensures var s := After(threads, run).value;
            && s.arrived == Arrivals(run)
            && multiset(s.taken) + multiset(s.queue) == multiset(Arrivals(run))
            && Commands(s.taken) <= Commands(Arrivals(run)) && Within(s.queue, Arrivals(run))
  {
    RunInv(threads, run);
    ArrivedAll(threads, run);
    var s := After(threads, run).value;
    assert Commands(s.taken) + Commands(s.queue) == Commands(s.arrived);
  }

  lemma {:induction false} ArrivedAll(threads: nat, run: seq<Step>)
    requires After(threads, run).Some?
    ensures After(threads, run).value.arrived == Arrivals(run)
  {
    if run != [] { ArrivedAll(threads, run[..|run| - 1]); }
  }

  /** On every run, no two threads process replies of one transaction. */
  lemma {:induction false} OneThreadPerTransaction(threads: nat, run: seq<Step>, i: nat, j: nat, tid: Tid)
    requires After(threads, run).Some?
    requires var s := After(threads, run).value;
             i < |s.status| && j < |s.status| && Handles(s.status[i], tid) && Handles(s.status[j], tid)
    ensures i == j
  {
    RunInv(threads, run);
  }

  /** On every run, the replies taken so far are the first ones that arrived, in that order. */
  lemma {:induction false} TakenInArrivalOrder(threads: nat, run: seq<Step>, tid: Tid)
    requires After(threads, run).Some?
    ensures Replies(After(threads, run).value.taken, tid) <= Replies(After(threads, run).value.arrived, tid)
  {
    RunInv(threads, run);
    var s := After(threads, run).value;
    assert Replies(s.taken, tid) + Replies(s.queue, tid) == Replies(s.arrived, tid);
  }

  ghost predicate ClaimedByOther(s: Pool, me: nat, tid: Tid)
    requires |s.claims| == |s.status|
  {
    exists j :: 0 <= j < |s.claims| && j != me && s.claims[j] == Some(tid) && !s.status[j].Waiting?
  }

  /** Nothing that waits in the queue is for this thread. */
  ghost predicate Idle(s: Pool, me: nat)
    requires |s.claims| == |s.status|
  {
    forall k :: 0 <= k < |s.queue| ==> s.queue[k].reply && ClaimedByOther(s, me, s.queue[k].tid)
  }

  /**
   A thread looking for work goes without exactly when everything queued is a reply whose transaction
   another thread has claimed; such a thread is not waiting.
   */
  lemma {:induction false} IdleOnlyIfClaimed(s: Pool, me: nat)
    requires Inv(s) && Enabled(s, Round(me))
    ensures Next(s, Round(me)).status[me].Waiting? <==> Idle(s, me)
  {
    var free := s.claims[me := None];
    FindFirst(s.queue, free, 0);
    ClaimedFree(s, me);
  }

  lemma {:induction false} ClaimedFree(s: Pool, me: nat)
    requires Inv(s) && me < |s.status|
    ensures forall tid: Tid :: Claimed(s.claims[me := None], tid) <==> ClaimedByOther(s, me, tid)
  {
    hide InOrder, LastIsLast, LastTaken, Exclusive;
    var free := s.claims[me := None];
    forall tid: Tid ensures Claimed(free, tid) <==> ClaimedByOther(s, me, tid) {
      if Claimed(free, tid) {
        var j :| 0 <= j < |free| && free[j] == Some(tid);
        assert j != me && s.claims[j] == Some(tid) && !s.status[j].Waiting?;
      }
      if ClaimedByOther(s, me, tid) {
        var j :| 0 <= j < |s.claims| && j != me && s.claims[j] == Some(tid) && !s.status[j].Waiting?;
        assert free[j] == Some(tid);
      }
    }
  }

  lemma {:induction false} FindMore(queue: seq<Req>, r: Req, claims: Claims, k: nat)
    requires k <= |queue|
    ensures var found := Find(queue, claims, k);
            Find(queue + [r], claims, k) ==
            if found.Some? then found else if !r.reply || !Claimed(claims, r.tid) then Some(|queue|) else None
    decreases |queue| - k
  {
    if k < |queue| {
      FindMore(queue, r, claims, k + 1);
    }
  }

  /**
   What the rule that only the last reply lacks MORE is for.  If another reply arrives while a thread
   processes the last one, a second thread starts on that transaction at once exactly when nothing else
   waits for it and no other thread still holds a claim.
   */
  lemma {:induction false} TwoLastReplies(s: Pool, i: nat, j: nat, more: bool)
    requires Inv(s) && i < |s.status| && Enabled(s, Round(j))
    requires s.status[i].Processing? && s.status[i].r.reply && !s.status[i].r.more
    ensures var tid := s.status[i].r.tid;
            var s' := s.(queue := s.queue + [Req(tid, true, more)]);
            Exclusive(Next(s', Round(j)).status) <==> !(Idle(s, j) && !ClaimedByOther(s, j, tid))
  {
    hide Find;
    var tid := s.status[i].r.tid;
    var r := Req(tid, true, more);
    var s' := s.(queue := s.queue + [r]);
    var free := s.claims[j := None];
    FindMore(s.queue, r, free, 0);
    FindFirst(s.queue, free, 0);
    ClaimedFree(s, j);
    var found := Find(s.queue, free, 0);
    if found.Some? {
      StepKeeps(s, Round(j));
      assert s'.queue[found.value] == s.queue[found.value];
      assert Next(s', Round(j)).status == Next(s, Round(j)).status;
    } else if Claimed(free, tid) {
      assert Next(s', Round(j)).status == s.status[j := Waiting];
    } else {
      assert Handles(Next(s', Round(j)).status[i], tid) && Handles(Next(s', Round(j)).status[j], tid);
    }
  }
}
