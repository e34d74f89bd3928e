/**
 The life of one transaction: who holds references to it, who can find it, and
 when its callbacks run.  The sender, the thread processing a reply, the timeout
 check and the cleaning of a state each advance by atomic steps.
 */
module TransLife {
  import opened Basics

  /** Allocated, referenced, in tree and list, queued; done once the sender gave its reference back. */
  datatype Sender = New | Got | Inserted | Queued | SenderDone

  /** Processing one reply: found it, in the callback, callback done, own reference given back. */
  datatype Worker = Off | Found(more: bool) | InCall(more: bool) | Called(more: bool) | Dropped(more: bool)

  /** A timeout or reset: moved to the private list, in the callback, callback done. */
  datatype Timer = NoTimer | Moved | TimerInCall | TimerCalled

  /** Cleaning a state: taken out of the tree with a reference of its own, first reference given back. */
  datatype Cleaner = NoCleaner | TakenOut | OnePut

  datatype Phase = Alive | Dying | InFinalCall | Freed

  datatype Event = Reply | Timeout | Final

  /** `log` records the callbacks in the order in which they start. */
  datatype Life = Life(refcnt: int, inTree: bool, inList: bool, sender: Sender, worker: Worker,
                       timer: Timer, cleaner: Cleaner, phase: Phase, log: seq<Event>)

  datatype Step =
    | Send                       // the next step of the sender
    | Take(more: bool)           // a reply finds the transaction
    | Work                       // the next step of the thread processing the reply
    | Expire                     // the timeout check takes it from the timeout list
    | Time                       // the next step of the timeout check
    | CleanTake                  // the cleaning of a state takes it from the tree
    | Clean                      // the next step of the cleaning
    | Destroy                    // the next step of destruction

  /** Giving a reference back; the last one starts the destruction. */
  function Put(l: Life): Life {
    if l.refcnt - 1 == 0 then l.(refcnt := 0, phase := Dying) else l.(refcnt := l.refcnt - 1)
  }

  predicate Enabled(l: Life, a: Step) {
    match a
    case Send => !l.sender.SenderDone?
    case Take(_) => l.inTree && l.worker.Off?
    case Work => !l.worker.Off?
    case Expire => l.inList
    case Time => !l.timer.NoTimer?
    case CleanTake => l.inTree && l.worker.Off?
    case Clean => !l.cleaner.NoCleaner?
    case Destroy => l.phase.Dying? || l.phase.InFinalCall?
  }

  function SendStep(l: Life): Life {
    match l.sender
    case New => l.(refcnt := l.refcnt + 1, sender := Got)
    case Got => l.(inTree := true, inList := true, sender := Inserted)
    case Inserted => l.(sender := Queued)
    case Queued => Put(l.(sender := SenderDone))
    case SenderDone => l
  }

  /** Under the lock: take a reference, leave the timeout list, and on the last reply leave the tree. */
  function TakeStep(l: Life, more: bool): Life {
    l.(refcnt := l.refcnt + 1, inTree := l.inTree && more, inList := false, worker := Found(more))
  }

  /** A reply with MORE puts the transaction back on the timeout list, after its own reference is gone. */
  function WorkStep(l: Life): Life {
    match l.worker
    case Off => l
    case Found(more) => l.(worker := InCall(more), log := l.log + [Reply])
    case InCall(more) => l.(worker := Called(more))
    case Called(more) => Put(l.(worker := Dropped(more)))
    case Dropped(more) => if more then l.(inList := true, worker := Off) else Put(l.(worker := Off))
  }

  function TimeStep(l: Life): Life {
    match l.timer
    case NoTimer => l
    case Moved => l.(timer := TimerInCall, log := l.log + [Timeout])
    case TimerInCall => l.(timer := TimerCalled)
    case TimerCalled => Put(l.(timer := NoTimer))
  }

  function CleanStep(l: Life): Life {
    match l.cleaner
    case NoCleaner => l
    case TakenOut => Put(l.(cleaner := OnePut))
    case OnePut => Put(l.(cleaner := NoCleaner))
  }

  function DestroyStep(l: Life): Life {
    match l.phase
    case Dying => l.(phase := InFinalCall, log := l.log + [Final])
    case InFinalCall => l.(phase := Freed)
    case _ => l
  }

  function Next(l: Life, a: Step): Life
    requires Enabled(l, a)
  {
    match a
    case Send => SendStep(l)
    case Take(more) => TakeStep(l, more)
    case Work => WorkStep(l)
    case Expire => l.(inTree := false, inList := false, timer := Moved)
    case Time => TimeStep(l)
    case CleanTake => l.(refcnt := l.refcnt + 1, inTree := false, inList := false, cleaner := TakenOut)
    case Clean => CleanStep(l)
    case Destroy => DestroyStep(l)
  }

  /** Whether a step reads or writes the transaction itself. */
  predicate Touches(l: Life, a: Step) {
    Enabled(l, a) && !a.Destroy?
  }

  function Init(): Life {
    Life(1, false, false, New, Off, NoTimer, NoCleaner, Alive, [])
  }

  // --------------------------------------------------------------------------
  // Who holds which reference
  // --------------------------------------------------------------------------

  function Bit(b: bool): int {
    if b then 1 else 0
  }

  predicate LastReply(w: Worker) {
    !w.Off? && !w.more
  }

  /** The first reference belongs to the sender, the tree, or whoever took the transaction out of the tree. */
  function Owners(l: Life): int {
    Bit(l.sender.New? || l.sender.Got?) + Bit(l.inTree) + Bit(LastReply(l.worker)) + Bit(!l.timer.NoTimer?)
      + Bit(!l.cleaner.NoCleaner?)
  }

  /** The references taken besides the first one. */
  function Extra(l: Life): int {
    Bit(l.sender.Got? || l.sender.Inserted? || l.sender.Queued?)
      + Bit(l.worker.Found? || l.worker.InCall? || l.worker.Called?) + Bit(l.cleaner.TakenOut?)
  }

  predicate Inv(l: Life) {
    && Owners(l) <= 1
    && l.refcnt == Owners(l) + Extra(l)
    && (l.refcnt == 0 <==> !l.phase.Alive?)
    && (l.inList <==> l.inTree && l.worker.Off?)
    && (!l.worker.Off? && l.worker.more ==> l.inTree)
    && (forall i :: 0 <= i < |l.log| && l.log[i] == Final ==> i == |l.log| - 1)
    && (Final in l.log <==> l.phase.InFinalCall? || l.phase.Freed?)
  }

  lemma {:induction false} StepKeeps(l: Life, a: Step)
    requires Inv(l) && Enabled(l, a)
    ensures Inv(Next(l, a))
  {
  }

  // --------------------------------------------------------------------------
  // What follows at every point
  // --------------------------------------------------------------------------

  /** No step other than the destruction itself touches a transaction without references. */
  lemma {:induction false} NoTouchAfterZero(l: Life, a: Step)
    requires Inv(l) && Touches(l, a)
    ensures l.refcnt > 0
  {
  }

  /** A transaction that is being destroyed can no longer be found. */
  lemma {:induction false} DyingIsHidden(l: Life)
    requires Inv(l) && !l.phase.Alive?
    ensures !l.inTree && !l.inList
    ensures l.sender.SenderDone? && l.worker.Off? && l.timer.NoTimer? && l.cleaner.NoCleaner?
  {
  }

  /** Two callbacks never run at once. */
  lemma {:induction false} CallbacksApart(l: Life)
    requires Inv(l)
    ensures Bit(l.worker.InCall?) + Bit(l.timer.TimerInCall?) + Bit(l.phase.InFinalCall?) <= 1
  {
  }

  /** Nothing leaks: when nobody can find or use the transaction any more, it is being destroyed. */
  lemma {:induction false} NoLeak(l: Life)
    requires Inv(l) && !l.inTree && l.sender.SenderDone? && l.worker.Off? && l.timer.NoTimer? && l.cleaner.NoCleaner?
    ensures l.refcnt == 0 && !l.phase.Alive?
  {
  }

  /** The other actors do not look at the thread processing a reply, except that cleaning waits for it. */
  lemma {:induction false} WorkerApart(l: Life, w: Worker, b: Step)
    requires l.worker.Off? && Enabled(l, b) && !b.Take? && !b.Work? && (b.CleanTake? ==> w.Off?)
    ensures Enabled(l.(worker := w), b) && Next(l.(worker := w), b) == Next(l, b).(worker := w)
    ensures Next(l, b).worker.Off?
  {
  }

  // --------------------------------------------------------------------------
  // Runs
  // --------------------------------------------------------------------------

  /** Where a run leads, if each of its steps is possible. */
  function After(l: Life, run: seq<Step>): Option<Life> {
    if run == [] then Some(l)
    else
      var before := After(l, run[..|run| - 1]);
      if before.Some? && Enabled(before.value, run[|run| - 1]) then Some(Next(before.value, run[|run| - 1])) else None
  }

  lemma {:induction false} RunInv(l: Life, run: seq<Step>)
    requires Inv(l) && After(l, run).Some?
    ensures Inv(After(l, run).value)
  {
    hide Inv, Enabled, Next;
    if run != [] {
      RunInv(l, run[..|run| - 1]);
      StepKeeps(After(l, run[..|run| - 1]).value, run[|run| - 1]);
    }
  }

  lemma {:induction false} RunPrefix(l: Life, run: seq<Step>, k: nat)
    requires After(l, run).Some? && k < |run|
    ensures run[..|run| - 1][..k] == run[..k] && After(l, run[..|run| - 1]).Some?
  {
  }

  lemma {:induction false} RunMore(l: Life, run: seq<Step>, a: Step)
    requires After(l, run).Some? && Enabled(After(l, run).value, a)
    ensures After(l, run + [a]) == Some(Next(After(l, run).value, a))
  {
    assert (run + [a])[..|run|] == run;
  }

  function Rank(p: Phase): nat {
    match p
    case Alive => 0
    case Dying => 0
    case InFinalCall => 1
    case Freed => 2
  }

  lemma {:induction false} OnlyDestroy(l: Life, a: Step)
    requires Inv(l) && l.refcnt == 0 && Enabled(l, a)
    ensures a.Destroy? && Next(l, a).refcnt == 0 && Rank(Next(l, a).phase) == Rank(l.phase) + 1
    ensures Final in l.log ==> Next(l, a).log == l.log
  {
  }

  /** After the last reference is gone a run consists of the final callback and the freeing, once each. */
  lemma {:induction false} UntouchedAfterZero(run: seq<Step>, k: nat)
    requires k <= |run| && After(Init(), run[..k]).Some? && After(Init(), run).Some?
    requires After(Init(), run[..k]).value.refcnt == 0
    ensures forall i :: k <= i < |run| ==> run[i].Destroy?
    ensures After(Init(), run).value.refcnt == 0
    ensures |run| - k == Rank(After(Init(), run).value.phase) - Rank(After(Init(), run[..k]).value.phase)
    decreases |run|
  {
    hide Inv, Enabled, Next, Rank;
    if k == |run| {
      assert run[..k] == run;
    } else {
      RunPrefix(Init(), run, k);
      UntouchedAfterZero(run[..|run| - 1], k);
      InitInv();
      RunInv(Init(), run[..|run| - 1]);
      OnlyDestroy(After(Init(), run[..|run| - 1]).value, run[|run| - 1]);
    }
  }

  lemma {:induction false} InitInv()
    ensures Inv(Init())
  {
  }

  lemma {:induction false} FinalAtZero(l: Life)
    requires Inv(l) && Final in l.log
    ensures l.refcnt == 0
  {
  }

  /** Once the final callback has started, no callback starts for the rest of any run. */
  lemma {:induction false} FinalIsLast(run: seq<Step>, k: nat)
    requires k <= |run| && After(Init(), run[..k]).Some? && After(Init(), run).Some?
    requires Final in After(Init(), run[..k]).value.log
    ensures After(Init(), run).value.log == After(Init(), run[..k]).value.log
    decreases |run|
  {
    hide Inv, Enabled, Next;
    if k == |run| {
      assert run[..k] == run;
    } else {
      RunPrefix(Init(), run, k);
      FinalIsLast(run[..|run| - 1], k);
      InitInv();
      RunInv(Init(), run[..|run| - 1]);
      FinalAtZero(After(Init(), run[..|run| - 1]).value);
      OnlyDestroy(After(Init(), run[..|run| - 1]).value, run[|run| - 1]);
    }
  }

  /** Replies come first, then at most one timeout, then at most one final callback. */
  ghost predicate Ordered(log: seq<Event>) {
    forall i, j :: 0 <= i < j < |log| ==> log[i] == Reply || (log[i] == Timeout && log[j] == Final)
  }

  /** Whoever reports a timeout has the transaction for itself. */
  predicate TimedOut(l: Life) {
    Timeout in l.log ==>
      !l.inTree && l.worker.Off? && l.cleaner.NoCleaner? && !l.timer.Moved? && !l.sender.New? && !l.sender.Got?
  }

  lemma {:induction false} StepOrdered(l: Life, a: Step)
    requires Inv(l) && Ordered(l.log) && TimedOut(l) && Enabled(l, a)
    ensures Ordered(Next(l, a).log) && TimedOut(Next(l, a))
  {
    var log := Next(l, a).log;
    assert log == l.log || log == l.log + [log[|l.log|]];
    assert log != l.log ==> Final !in l.log && (log[|l.log|] != Final ==> Timeout !in l.log);
    forall i, j | 0 <= i < j < |log| ensures log[i] == Reply || (log[i] == Timeout && log[j] == Final) {
      assert log[i] == l.log[i] && l.log[i] in l.log;
      if j < |l.log| {
        assert log[j] == l.log[j];
      }
    }
  }

  /** The callbacks of every run: replies, at most one timeout, at most one final callback. */
  lemma {:induction false} CallbackOrder(run: seq<Step>)
    requires After(Init(), run).Some?
    ensures Ordered(After(Init(), run).value.log) && TimedOut(After(Init(), run).value)
  {
    hide Inv, Enabled, Next, Ordered, TimedOut;
    if run == [] {
      NoCallbacks();
    } else {
      CallbackOrder(run[..|run| - 1]);
      InitInv();
      RunInv(Init(), run[..|run| - 1]);
      StepOrdered(After(Init(), run[..|run| - 1]).value, run[|run| - 1]);
    }
  }

  lemma {:induction false} NoCallbacks()
    ensures Ordered(Init().log) && TimedOut(Init())
  {
  }

  // --------------------------------------------------------------------------
  // Every reply and every timeout reaches its callback
  // --------------------------------------------------------------------------

  function Count(log: seq<Event>, e: Event): nat {
    if log == [] then 0 else Count(log[..|log| - 1], e) + if log[|log| - 1] == e then 1 else 0
  }

  function Takes(run: seq<Step>): nat {
    if run == [] then 0 else Takes(run[..|run| - 1]) + if run[|run| - 1].Take? then 1 else 0
  }

  function Expires(run: seq<Step>): nat {
    if run == [] then 0 else Expires(run[..|run| - 1]) + if run[|run| - 1].Expire? then 1 else 0
  }

  lemma {:induction false} CountSnoc(log: seq<Event>, x: Event, e: Event)
    ensures Count(log + [x], e) == Count(log, e) + if x == e then 1 else 0
  {
    assert (log + [x])[..|log|] == log;
  }

  /** A callback is logged exactly by the step that starts it. */
  lemma {:induction false} EventSteps(l: Life, a: Step)
    requires Inv(l) && Enabled(l, a)
    ensures var l' := Next(l, a);
            && (a.Work? && l.worker.Found? ==> l'.log == l.log + [Reply] && l'.worker == InCall(l.worker.more))
            && (a.Time? && l.timer.Moved? ==> l'.log == l.log + [Timeout] && l'.timer == TimerInCall)
            && (a.Destroy? && l.phase.Dying? ==> l'.log == l.log + [Final] && l'.phase == InFinalCall)
            && (!(a.Work? && l.worker.Found?) && !(a.Time? && l.timer.Moved?) && !(a.Destroy? && l.phase.Dying?) ==>
                  l'.log == l.log)
            && (l'.worker.Found? <==> a.Take? || (l.worker.Found? && !a.Work?))
            && (l'.timer.Moved? <==> a.Expire? || (l.timer.Moved? && !a.Time?))
            && (a.Take? ==> l.worker.Off?) && (a.Expire? ==> l.timer.NoTimer?)
  {
  }

  /**
   On every run: each reply that found the transaction has started its callback, once, or is about to; and so
   has each timeout.
   */
  lemma {:induction false} CallbacksRun(run: seq<Step>)
    requires After(Init(), run).Some?
    ensures var l := After(Init(), run).value;
            && Count(l.log, Reply) + Bit(l.worker.Found?) == Takes(run)
            && Count(l.log, Timeout) + Bit(l.timer.Moved?) == Expires(run)
            && Count(l.log, Final) == Bit(l.phase.InFinalCall? || l.phase.Freed?)
  {
    hide Inv, Enabled, Next;
    if run != [] {
      var before, a := run[..|run| - 1], run[|run| - 1];
      var l := After(Init(), before).value;
      CallbacksRun(before);
      InitInv();
      RunInv(Init(), before);
      EventSteps(l, a);
      CountStep(l, a);
      FinalPhase(l, a);
    }
  }

  lemma {:induction false} CountStep(l: Life, a: Step)
    requires Inv(l) && Enabled(l, a)
    ensures var l' := Next(l, a);
            && Count(l'.log, Reply) == Count(l.log, Reply) + Bit(a.Work? && l.worker.Found?)
            && Count(l'.log, Timeout) == Count(l.log, Timeout) + Bit(a.Time? && l.timer.Moved?)
            && Count(l'.log, Final) == Count(l.log, Final) + Bit(a.Destroy? && l.phase.Dying?)
  {
    hide Inv, Enabled, Next, Count;
    EventSteps(l, a);
    CountSnoc(l.log, Reply, Reply);
    CountSnoc(l.log, Reply, Timeout);
    CountSnoc(l.log, Reply, Final);
    CountSnoc(l.log, Timeout, Reply);
    CountSnoc(l.log, Timeout, Timeout);
    CountSnoc(l.log, Timeout, Final);
    CountSnoc(l.log, Final, Reply);
    CountSnoc(l.log, Final, Timeout);
    CountSnoc(l.log, Final, Final);
  }

  lemma {:induction false} FinalPhase(l: Life, a: Step)
    requires Inv(l) && Enabled(l, a)
    ensures var l' := Next(l, a);
            Bit(l'.phase.InFinalCall? || l'.phase.Freed?) ==
            Bit(l.phase.InFinalCall? || l.phase.Freed?) + Bit(a.Destroy? && l.phase.Dying?)
  {
  }

  /** A finished reply with MORE leaves the transaction to be found by the next reply and by the timeout check. */
  lemma {:induction false} MoreIsAwaited(l: Life)
    requires Inv(l) && l.worker == Dropped(true)
    ensures var l' := Next(l, Work); l'.worker.Off? && l'.inTree && l'.inList
    ensures Enabled(Next(l, Work), Take(true)) && Enabled(Next(l, Work), Expire)
  {
  }

  /** A run that cannot go on has freed the transaction, after exactly one final callback at the very end. */
  lemma {:induction false} EveryEndFreed(run: seq<Step>)
    requires After(Init(), run).Some? && forall a :: !Enabled(After(Init(), run).value, a)
    ensures var l := After(Init(), run).value;
            && l.phase.Freed? && l.refcnt == 0
            && |l.log| > 0 && l.log[|l.log| - 1] == Final && Final !in l.log[..|l.log| - 1]
  {
    var l := After(Init(), run).value;
    InitInv();
    RunInv(Init(), run);
    assert !Enabled(l, Send) && !Enabled(l, Work) && !Enabled(l, Time) && !Enabled(l, Clean);
    assert !Enabled(l, Take(true)) && !Enabled(l, Destroy);
    NoLeak(l);
    var i :| 0 <= i < |l.log| && l.log[i] == Final;
  }

  // --------------------------------------------------------------------------
  // Every transaction can be finished
  // --------------------------------------------------------------------------

  /** The steps that the actors under way still have to take. */
  function Remaining(l: Life): nat {
    (match l.sender case New => 4 case Got => 3 case Inserted => 2 case Queued => 1 case SenderDone => 0)
    + (match l.worker case Off => 0 case Found(_) => 4 case InCall(_) => 3 case Called(_) => 2 case Dropped(_) => 1)
    + (match l.timer case NoTimer => 0 case Moved => 3 case TimerInCall => 2 case TimerCalled => 1)
    + (match l.cleaner case NoCleaner => 0 case TakenOut => 2 case OnePut => 1)
    + (match l.phase case Alive => 3 case Dying => 2 case InFinalCall => 1 case Freed => 0)
  }

  /** Each step of an actor under way brings it closer to its end. */
  lemma {:induction false} StepShrinks(l: Life, a: Step)
    requires Inv(l) && Enabled(l, a) && !a.Take? && !a.Expire? && !a.CleanTake?
    ensures Remaining(Next(l, a)) < Remaining(l)
  {
  }

  /** A transaction enters the tree with its sender and leaves it with its last reply, its timeout or its state. */
  lemma {:induction false} TreeSteps(l: Life, a: Step)
    requires Inv(l) && Enabled(l, a)
    ensures Next(l, a).inTree <==>
            (l.inTree && a != Take(false) && !a.Expire? && !a.CleanTake?) || (a.Send? && l.sender.Got?)
    ensures a.CleanTake? ==> Next(l, a).cleaner.TakenOut?
  {
  }

  /** When no actor is under way, the transaction is freed, or waits for a reply or its timeout. */
  lemma {:induction false} OnlyWaits(l: Life)
    requires Inv(l) && forall a: Step :: Enabled(l, a) ==> a.Take? || a.Expire? || a.CleanTake?
    ensures l.phase.Freed? || (l.inTree && Enabled(l, Expire) && Enabled(l, Take(true)) && Enabled(l, Take(false)))
  {
    assert !Enabled(l, Send) && !Enabled(l, Work) && !Enabled(l, Time) && !Enabled(l, Clean) && !Enabled(l, Destroy);
  }

  /** An actor that is under way, or else the timeout check. */
  function NextActor(l: Life): Step {
    if !l.sender.SenderDone? then Send
    else if !l.worker.Off? then Work
    else if !l.timer.NoTimer? then Time
    else if !l.cleaner.NoCleaner? then Clean
    else if l.inTree then Expire
    else Destroy
  }

  lemma {:induction false} ActorMoves(l: Life)
    requires Inv(l) && !l.phase.Freed?
    ensures Enabled(l, NextActor(l))
    ensures !NextActor(l).Take? && !NextActor(l).CleanTake?
  {
  }

  function InPlay(l: Life): nat {
    if l.sender.New? || l.sender.Got? || l.inTree then 1 else 0
  }

  lemma {:induction false} InPlaySteps(l: Life, a: Step)
    requires Inv(l) && Enabled(l, a)
    ensures InPlay(Next(l, a)) <= InPlay(l)
    ensures a.Expire? ==> InPlay(Next(l, a)) < InPlay(l)
  {
  }

  ghost predicate Frees(l: Life, run: seq<Step>) {
    After(l, run).Some? && After(l, run).value.phase.Freed?
  }

  /** From every state, some run frees the transaction, with a timeout if no reply comes. */
  lemma {:induction false} CanFinish(l: Life)
    requires Inv(l)
    ensures exists run :: Frees(l, run)
  {
    hide Inv, Enabled, Next, Remaining, InPlay, NextActor;
    var run: seq<Step>, now := [], l;
    while !now.phase.Freed?
      invariant After(l, run) == Some(now) && Inv(now)
      decreases InPlay(now), Remaining(now)
    {
      var a := NextActor(now);
      ActorMoves(now);
      InPlaySteps(now, a);
      if !a.Expire? { StepShrinks(now, a); }
      StepKeeps(now, a);
      RunMore(l, run, a);
      run, now := run + [a], Next(now, a);
    }
    assert Frees(l, run);
  }

  // --------------------------------------------------------------------------
  // Why cleaning waits for replies in progress
  // --------------------------------------------------------------------------

  /** Cleaning without waiting for the thread that processes a reply. */
  function TakenOutNow(l: Life): Life {
    l.(refcnt := l.refcnt + 1, inTree := false, inList := false, cleaner := TakenOut)
  }

  /** A run after which the thread touches a transaction without references. */
  ghost predicate Harmful(l: Life, run: seq<Step>) {
    && After(l, run).Some? && After(l, run).value.refcnt == 0
    && !After(l, run).value.phase.Alive? && Touches(After(l, run).value, Work)
  }

  /** What is left of the sender and of the thread before it gives its reference back. */
  function StepsLeft(l: Life): nat {
    (match l.cleaner case TakenOut => 2 case OnePut => 1 case NoCleaner => 0)
    + (match l.sender case New => 4 case Got => 3 case Inserted => 2 case Queued => 1 case SenderDone => 0)
    + (match l.worker case Off => 4 case Found(_) => 3 case InCall(_) => 2 case Called(_) => 1 case Dropped(_) => 0)
  }

  /** A reply with MORE in progress on a transaction that cleaning has taken out of the tree. */
  predicate Exposed(l: Life) {
    && !l.inTree && !l.inList && l.timer.NoTimer? && !l.worker.Off? && l.worker.more
    && !l.sender.New? && !l.sender.Got?
    && l.refcnt == Bit(!l.cleaner.NoCleaner?) + Extra(l)
    && (l.refcnt == 0 <==> !l.phase.Alive?)
  }

  function Hurry(l: Life): Step {
    if !l.cleaner.NoCleaner? then Clean else if !l.sender.SenderDone? then Send else Work
  }

  lemma {:induction false} ExposedStep(l: Life)
    requires Exposed(l) && StepsLeft(l) > 0
    ensures Enabled(l, Hurry(l)) && Exposed(Next(l, Hurry(l))) && StepsLeft(Next(l, Hurry(l))) == StepsLeft(l) - 1
  {
  }

  lemma {:induction false} ExposedEnd(l: Life)
    requires Exposed(l) && StepsLeft(l) == 0
    ensures l.refcnt == 0 && !l.phase.Alive? && Touches(l, Work)
  {
  }

  /**
   If cleaning did not wait, then from every state with a reply with MORE in progress there would be a
   run on which the thread puts a freed transaction back on the timeout list.
   */
  lemma {:induction false} CleanDuringReply(l: Life)
    requires Inv(l) && !l.worker.Off? && l.worker.more
    ensures exists run :: Harmful(TakenOutNow(l), run)
  {
    var start := TakenOutNow(l);
    assert Exposed(start);
    var run: seq<Step>, now := [], start;
    while StepsLeft(now) > 0
      invariant Exposed(now) && After(start, run) == Some(now)
      decreases StepsLeft(now)
    {
      ExposedStep(now);
      RunMore(start, run, Hurry(now));
      run, now := run + [Hurry(now)], Next(now, Hurry(now));
    }
    ExposedEnd(now);
    assert Harmful(start, run);
  }
}
