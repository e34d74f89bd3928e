/**
 Runs of the cache: client operations interleaved with the single steps of the
 background thread, compared with a plain store.  Each step is right on exactly
 stated conditions, and the runs at the end show steps on which they fail.
 */
module CacheRun {
  import opened Basics
  import opened CacheState
  import opened CacheKey
  import opened Cache

  /** A client operation on a key, or a step of the background thread. */
  datatype Op =
    | Do(id: Id, what: Client)
    | ExpireRound(now: nat)
    | TakeDue(now: nat)
    | Arrive
    | RemoveListed(id: Id)

  /** The same on a store without a cache, where only the removal of an expired key is left of the background work. */
  function PlainStep(plain: Disk, op: Op): (Disk, Answer) {
    match op
    case Do(id, what) =>
      var (v, answer) := PlainOp(Lookup(plain, id), what);
      (if v.Some? then plain[id := v.value] else plain - {id}, answer)
    case RemoveListed(id) => (plain - {id}, Done)
    case _ => (plain, Done)
  }

  function PlainRun(plain: Disk, ops: seq<Op>): (Disk, seq<Answer>) {
    if ops == [] then (plain, [])
    else
      var (before, answers) := PlainRun(plain, ops[..|ops| - 1]);
      var (after, answer) := PlainStep(before, ops[|ops| - 1]);
      (after, answers + [answer])
  }

  /** The background thread does nothing else while a write of its own is on its way. */
  predicate Possible(p: Pending, op: Op) {
    match op
    case Do(_, what) => what.Write? ==> what.now > 0
    case Arrive => true
    case _ => p.Nothing?
  }

  /** A write without a lifetime to an entry that has one. */
  predicate Forgets(entries: Entries, op: Op) {
    op.Do? && op.what.Write? && op.id in entries && entries[op.id].lifetime != 0 && op.what.lifetime == 0
  }

  /** When the step leaves what the plain store has. */
  predicate StepFine(p: Pending, entries: Entries, disk: Disk, op: Op) {
    match op
    case Do(id, what) => StateFine(p, entries, disk, id, what)
    case RemoveListed(id) => id !in entries
    case _ => true
  }

  /** When the step answers as the plain store does. */
  predicate AnswersFine(p: Pending, entries: Entries, disk: Disk, op: Op) {
    op.Do? ==> ReplyFine(p, entries, disk, op.id, op.what)
  }

  /** Cache, backend and the write on its way together hold what the plain store holds. */
  ghost predicate Holds(p: Pending, entries: Entries, disk: Disk, plain: Disk) {
    forall x :: Promised(p, entries, disk, x) == Lookup(plain, x)
  }

  ghost predicate StandsFor(c: Cache, p: Pending, plain: Disk)
    reads c
  {
    SoundFor(p, c.entries, c.disk) && Holds(p, c.entries, c.disk, plain)
  }

  // --------------------------------------------------------------------------
  // Client operations
  // --------------------------------------------------------------------------

  method Perform(c: Cache, id: Id, what: Client) returns (answer: Answer)
    requires c.Structure({}) && (what.Write? ==> what.now > 0) && (id in c.entries ==> AppendShape(c.entries[id]))
    modifies c
    ensures Kept(old(c.entries), old(c.disk), c.entries, c.disk, {id})
    ensures Stepped(old(c.entries), old(c.disk), c.entries, c.disk, id, what, answer)
    ensures c.Structure({}) <==> !Forgets(old(c.entries), Do(id, what))
  {
    hide Linked, SyncExact, LifeExact, ListBytes, Fits, Kept, Written, Overwritten;
    match what
    case Write(offset, data, lifetime, cache, append, removeFromDisk, now) =>
      var handled := c.Write(id, offset, data, lifetime, cache, append, removeFromDisk, now);
      if !handled {
        c.disk := c.disk[id := Written(Lookup(c.disk, id), offset, data, append)];
        KeptChange(old(c.entries), old(c.disk), c.entries, c.disk, id);
      }
      answer := Done;
    case Read(cache) =>
      var r := c.Read(id, cache, false);
      answer := Got(if r.Some? then r else Lookup(c.disk, id));
    case Remove =>
      var ok := c.Remove(id, false);
      answer := Removed(ok);
  }

  /** What a step of one key does to the whole. */
  lemma {:induction false} WholeStep(p: Pending, e: Entries, d: Disk, e': Entries, d': Disk, id: Id, what: Client,
                                     answer: Answer, plain: Disk)
    requires SoundFor(p, e, d) && Holds(p, e, d, plain)
    requires Kept(e, d, e', d', {id}) && Stepped(e, d, e', d', id, what, answer)
    ensures var (plain', answer') := PlainStep(plain, Do(id, what));
            && (SoundFor(p, e', d') && Holds(p, e', d', plain') <==> StateFine(p, e, d, id, what))
            && (answer == answer' <==> ReplyFine(p, e, d, id, what))
  {
    hide Promised, SoundIn, Kept, Stepped, StateFine, ReplyFine, PlainOp;
    AtKey(p, e, d, e', d', id, what, answer);
    assert Promised(p, e, d, id) == Lookup(plain, id);
    var plain' := PlainStep(plain, Do(id, what)).0;
    forall x | x != id
      ensures Promised(p, e', d', x) == Lookup(plain', x) && (x in e' ==> SoundIn(p, e', d', x))
    {
      OthersKept(p, e, d, e', d', id, x);
      assert Promised(p, e, d, x) == Lookup(plain, x);
    }
    assert Lookup(plain', id) == PlainOp(Lookup(plain, id), what).0;
    if StateFine(p, e, d, id, what) {
      assert forall x :: Promised(p, e', d', x) == Lookup(plain', x);
    } else if SoundFor(p, e', d') {
      assert Promised(p, e', d', id) != Lookup(plain', id);
    }
  }

  // --------------------------------------------------------------------------
  // The background thread
  // --------------------------------------------------------------------------

  /** Once a write is on its way, it counts. */
  lemma {:induction false} SentSound(p: Pending, e: Entries, e': Entries, d: Disk)
    requires AllSound(e, d, {}) && Sends(p) && p.id in e && p.raw == e[p.id].data && (p.Append? <==> e[p.id].onlyAppend)
    requires e' == if p.Append? then e - {p.id} else e[p.id := e[p.id].(synctime := 0)]
    ensures SoundFor(p, e', d)
  {
    forall x | x in e' ensures SoundIn(p, e', d, x) { assert Sound(e[x], d, x); }
  }

  /** When it arrives, cache and backend are as if there had been nothing on its way. */
  lemma {:induction false} ArrivedWhole(p: Pending, e: Entries, d: Disk)
    requires SoundFor(p, e, d) && Sends(p)
    ensures var p' := if p.Copy? then Check(p.id) else Nothing;
            && SoundFor(p', e, ArrivedDisk(p, d))
            && forall x :: Promised(p', e, ArrivedDisk(p, d), x) == Promised(p, e, d, x)
  {
    var p' := if p.Copy? then Check(p.id) else Nothing;
    forall x | x in e ensures SoundIn(p', e, ArrivedDisk(p, d), x) { assert SoundIn(p, e, d, x); }
  }

  lemma {:induction false} ValuesKept(p: Pending, e: Entries, d: Disk, e': Entries, d': Disk, plain: Disk)
    requires !Sends(p) && Holds(p, e, d, plain) && SameValues(e, d, e', d') && AllSound(e', d', {})
    ensures Holds(Nothing, e', d', plain) && SoundFor(Nothing, e', d')
  {
    SoundForNothing(e', d');
    forall x ensures Promised(Nothing, e', d', x) == Lookup(plain, x) {
      assert Promised(p, e, d, x) == Lookup(plain, x);
      assert Value(e', d', x) == Value(e, d, x);
    }
  }

  lemma {:induction false} RemovedListed(e: Entries, d: Disk, d': Disk, id: Id, plain: Disk)
    requires AllSound(e, d, {}) && Holds(Nothing, e, d, plain)
    requires forall x :: Lookup(d', x) == if x == id then None else Lookup(d, x)
    ensures SoundFor(Nothing, e, d') && Holds(Nothing, e, d', plain - {id}) <==> id !in e
  {
    SoundForNothing(e, d');
    forall x | x != id ensures Promised(Nothing, e, d', x) == Lookup(plain - {id}, x) {
      assert Promised(Nothing, e, d, x) == Lookup(plain, x);
    }
    if id in e {
      assert Promised(Nothing, e, d', id) != Lookup(plain - {id}, id);
    } else {
      forall x | x in e ensures Sound(e[x], d', x) { assert Sound(e[x], d, x); }
      assert forall x :: Promised(Nothing, e, d', x) == Lookup(plain - {id}, x);
    }
  }

  method Background(c: Cache, p: Pending, op: Op, ghost plain: Disk) returns (p': Pending)
    requires c.Structure({}) && StandsFor(c, p, plain) && Possible(p, op) && !op.Do?
    modifies c
    ensures c.Structure({})
    ensures StandsFor(c, p', PlainStep(plain, op).0) <==> StepFine(p, old(c.entries), old(c.disk), op)
  {
    hide Linked, SyncExact, LifeExact, ListBytes, AllSound, SoundFor, Promised;
    p' := p;
    if p.Nothing? { SoundForNothing(c.entries, c.disk); }
    match op
    case Do(_, _) => assert false;
    case ExpireRound(now) =>
      var r := c.ExpireRound(now);
      ValuesKept(p, old(c.entries), old(c.disk), c.entries, c.disk, plain);
    case TakeDue(now) =>
      p' := c.TakeDue(now);
      if Sends(p') { SentSound(p', old(c.entries), c.entries, c.disk); }
      assert forall x :: Promised(Nothing, old(c.entries), old(c.disk), x) == Value(old(c.entries), old(c.disk), x) by {
        PromisedNothing(old(c.entries), old(c.disk));
      }
    case Arrive =>
      p' := c.Arrive(p);
      if Sends(p) {
        ArrivedWhole(p, old(c.entries), old(c.disk));
      } else if p.Check? {
        ValuesKept(p, old(c.entries), old(c.disk), c.entries, c.disk, plain);
      }
    case RemoveListed(id) =>
      assert forall x :: x in [id] <==> x == id;
      c.RemoveLocal([id]);
      RemovedListed(c.entries, old(c.disk), c.disk, id, plain);
  }

  lemma {:induction false} PromisedNothing(e: Entries, d: Disk)
    ensures forall x :: Promised(Nothing, e, d, x) == Value(e, d, x)
  {
  }

  // --------------------------------------------------------------------------
  // Runs
  // --------------------------------------------------------------------------

  /**
   One step: the containers stay consistent, cache, pending write and backend stand for the plain store, and
   the answer is that of the plain store, each if and only if the step meets its condition.
   */
  method Step(c: Cache, p: Pending, op: Op, ghost plain: Disk) returns (answer: Answer, p': Pending)
    requires c.Structure({}) && StandsFor(c, p, plain) && Possible(p, op)
    modifies c
    ensures c.Structure({}) <==> !Forgets(old(c.entries), op)
    ensures StandsFor(c, p', PlainStep(plain, op).0) <==> StepFine(p, old(c.entries), old(c.disk), op)
    ensures answer == PlainStep(plain, op).1 <==> AnswersFine(p, old(c.entries), old(c.disk), op)
  {
    hide Linked, SyncExact, LifeExact, ListBytes, Kept, Stepped, StateFine, ReplyFine, Holds;
    answer, p' := Done, p;
    if op.Do? {
      SlotPromised(p, c.entries, c.disk, op.id);
      answer := Perform(c, op.id, op.what);
      WholeStep(p, old(c.entries), old(c.disk), c.entries, c.disk, op.id, op.what, answer, plain);
    } else {
      p' := Background(c, p, op, plain);
    }
  }

  predicate Excluded(p: Pending, entries: Entries, disk: Disk, op: Op) {
    || !Possible(p, op) || Forgets(entries, op)
    || !StepFine(p, entries, disk, op) || !AnswersFine(p, entries, disk, op)
  }

  /**
   Every interleaving of client operations and background steps, up to the first excluded one, gives the
   answers and the contents of the plain store.
   */
  method Run(c: Cache, ops: seq<Op>) returns (answers: seq<Answer>, p: Pending, n: nat)
    requires c.Valid() && c.entries == map[]
    modifies c
    ensures n <= |ops| && (n < |ops| ==> Excluded(p, c.entries, c.disk, ops[n]))
    ensures c.Structure({}) && StandsFor(c, p, PlainRun(old(c.disk), ops[..n]).0)
    ensures answers == PlainRun(old(c.disk), ops[..n]).1
    ensures p.Nothing? ==> c.Valid()
  {
    hide Linked, SyncExact, LifeExact, ListBytes, StepFine, AnswersFine, SoundFor, AllSound;
    answers, p, n := [], Nothing, 0;
    SoundForNothing(c.entries, c.disk);
    PromisedNothing(c.entries, c.disk);
    while n < |ops|
      invariant n <= |ops| && c.Structure({})
      invariant StandsFor(c, p, PlainRun(old(c.disk), ops[..n]).0) && answers == PlainRun(old(c.disk), ops[..n]).1
    {
      if Excluded(p, c.entries, c.disk, ops[n]) {
        break;
      }
      assert ops[..n + 1][..n] == ops[..n];
      var answer;
      answer, p := Step(c, p, ops[n], PlainRun(old(c.disk), ops[..n]).0);
      answers := answers + [answer];
      n := n + 1;
    }
    SoundForNothing(c.entries, c.disk);
  }

  // --------------------------------------------------------------------------
  // Steps on which the conditions fail
  // --------------------------------------------------------------------------

  lemma {:induction false} WriteWhole(v: Option<Data>, data: Data)
    ensures Written(v, 0, data, false) == data
  {
    assert Overwritten(v, 0, data) == data;
  }

  /** A key written with a lifetime and then without one leaves the lifetime set with its lifetime still set. */
  method LifetimeLost(max: nat, timeout: nat, backend: Disk, id: Id, data: Data, lifetime: nat, now: nat)
    returns (c: Cache)
    requires lifetime > 0 && now > 0
    ensures fresh(c) && id in c.entries && c.entries[id].lifetime == lifetime + now && id !in c.life
    ensures !LifeExact(c.entries, c.life)
  {
    c := new Cache(max, timeout, backend);
    var handled := c.Write(id, 0, data, lifetime, true, false, false, now);
    handled := c.Write(id, 0, data, 0, true, false, false, now);
  }

  /** A cache that has just sent the bytes appended to a key on their way. */
  method Appending(max: nat, timeout: nat, backend: Disk, id: Id, added: Data, now: nat) returns (c: Cache)
    requires now > 0
    ensures fresh(c) && c.Valid() && id !in c.entries && c.disk == backend
  {
    hide Linked, SyncExact, ListBytes, AllSound, Fits, Kept, Promised;
    c := new Cache(max, timeout, backend);
    var handled := c.Write(id, 0, added, 0, true, true, false, now);
    var raw := c.TakeAppend(id);
    assert raw == added;
  }

  /** A client reads the key before they arrive: the cache then keeps a clean entry without them. */
  method LostAppend(max: nat, timeout: nat, id: Id, stored: Data, added: Data, now: nat) returns (c: Cache)
    requires added != [] && now > 0
    ensures fresh(c) && !c.Valid()
    ensures Value(c.entries, c.disk, id) == Some(stored) && Lookup(c.disk, id) == Some(stored + added)
  {
    c := Appending(max, timeout, map[id := stored], id, added, now);
    var r := c.Read(id, true, false);
    c.AppendPending(id, added);
  }

  /** A client overwrites the key on the backend before they arrive: they end up behind the new contents. */
  method OverwriteSpoilt(max: nat, timeout: nat, backend: Disk, id: Id, added: Data, data: Data, now: nat)
    returns (c: Cache)
    requires added != [] && now > 0
    ensures fresh(c) && c.Valid() && Value(c.entries, c.disk, id) == Some(data + added) != Some(data)
  {
    hide Linked, SyncExact, LifeExact, ListBytes, AllSound, Kept, Written;
    c := Appending(max, timeout, backend, id, added, now);
    var handled := c.Write(id, 0, data, 0, false, false, false, now);
    DiskWrite(c.entries, c.disk, id, Written(Lookup(c.disk, id), 0, data, false));
    c.disk := c.disk[id := Written(Lookup(c.disk, id), 0, data, false)];
    WriteWhole(Lookup(backend, id), data);
    c.AppendPending(id, added);
    Longer(data, added);
  }

  /** A client appends to the key on the backend before they arrive: the appends change places. */
  method AppendsSwapped(max: nat, timeout: nat, backend: Disk, id: Id, first: Data, second: Data, now: nat)
    returns (c: Cache)
    requires now > 0
    ensures fresh(c) && c.Valid()
    ensures Value(c.entries, c.disk, id) == Some(Get(Lookup(backend, id)) + second + first)
  {
    hide Linked, SyncExact, LifeExact, ListBytes, AllSound, Kept;
    c := Appending(max, timeout, backend, id, first, now);
    var handled := c.Write(id, 0, second, 0, false, true, false, now);
    DiskWrite(c.entries, c.disk, id, Written(Lookup(c.disk, id), 0, second, true));
    c.disk := c.disk[id := Written(Lookup(c.disk, id), 0, second, true)];
    c.AppendPending(id, first);
  }

  /** A client removes the key before they arrive: it comes back with them. */
  method RemovedReturns(max: nat, timeout: nat, backend: Disk, id: Id, added: Data, now: nat) returns (c: Cache)
    requires now > 0
    ensures fresh(c) && c.Valid() && Value(c.entries, c.disk, id) == Some(added)
  {
    hide Linked, SyncExact, LifeExact, ListBytes, AllSound, Kept;
    c := Appending(max, timeout, backend, id, added, now);
    var ok := c.Remove(id, false);
    c.AppendPending(id, added);
    assert [] + added == added;
  }

  /** A client removes a key between the copy of its entry and the write of the copy: it comes back as well. */
  method CopyReturns(max: nat, timeout: nat, backend: Disk, id: Id, data: Data, now: nat) returns (c: Cache)
    requires now > 0
    ensures fresh(c) && c.Valid() && Value(c.entries, c.disk, id) == Some(data)
  {
    hide Linked, SyncExact, LifeExact, ListBytes, Kept, Fits, Promised;
    c := new Cache(max, timeout, backend);
    WriteWhole(Value(c.entries, c.disk, id), data);
    var handled := c.Write(id, 0, data, 0, true, false, false, now);
    ghost var e1, d1 := c.entries, c.disk;
    var copy := c.TakeCopy(id);
    ghost var e2 := c.entries;
    var ok := c.Remove(id, false);
    KeptChange(e1, d1, e2, d1, id);
    KeptThen(e1, d1, e2, d1, c.entries, c.disk, {id}, {id}, {id});
    KeptSound(e1, d1, c.entries, c.disk, id);
    c.WriteCopy(id, copy);
    c.DropMarked(id);
  }

  /**
   Between the listing of an expired key and its removal a client writes the key to the backend: the write
   is lost.
   */
  method LostRewrite(max: nat, timeout: nat, backend: Disk, id: Id, first: Data, second: Data, lifetime: nat, now: nat)
    returns (c: Cache)
    requires lifetime > 0 && now > 0
    ensures fresh(c) && c.Valid() && Value(c.entries, c.disk, id) == None
  {
    hide Linked, SyncExact, ListBytes, AllSound, Fits, Written, Kept;
    c := new Cache(max, timeout, backend);
    var handled := c.Write(id, 0, first, lifetime, true, false, true, now);
    var remove := c.Expire(lifetime + now);
    handled := c.Write(id, 0, second, 0, false, false, false, now);
    DiskWrite(c.entries, c.disk, id, second);
    c.disk := c.disk[id := second];
    assert !handled && Value(c.entries, c.disk, id) == Some(second);
    c.RemoveLocal(remove);
  }

  /** If instead a client reads the key into the cache, its clean entry outlives the removal. */
  method RemovedUnderEntry(max: nat, timeout: nat, backend: Disk, id: Id, data: Data, lifetime: nat, now: nat)
    returns (c: Cache)
    requires lifetime > 0 && now > 0
    ensures fresh(c) && !c.Valid() && id !in c.disk && Value(c.entries, c.disk, id) == Some(data)
  {
    hide Linked, SyncExact, ListBytes, AllSound, Fits, Kept;
    c := new Cache(max, timeout, backend);
    WriteWhole(Value(c.entries, c.disk, id), data);
    var handled := c.Write(id, 0, data, lifetime, true, false, true, now);
    var remove := c.Expire(lifetime + now);
    var r := c.Read(id, true, false);
    c.RemoveLocal(remove);
  }
}
