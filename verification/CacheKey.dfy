/**
 One key of the cache: its entry, if there is one, over what the backend holds.
 Client operations on the key are steps of this pair.  A write of the background
 thread that is still on its way is part of the state; for each client operation
 that comes before it arrives, the result is right on exactly stated conditions.
 */
module CacheKey {
  import opened Basics
  import opened CacheState

  /** What matters of an entry to the value of its key. */
  datatype Top = Top(data: Data, onlyAppend: bool, dirty: bool)

  datatype Slot = Slot(top: Option<Top>, below: Option<Data>)

  function TopOf(e: Entry): Top {
    Top(e.data, e.onlyAppend, e.synctime != 0)
  }

  function SlotOf(entries: Entries, disk: Disk, id: Id): Slot {
    Slot(if id in entries then Some(TopOf(entries[id])) else None, Lookup(disk, id))
  }

  function SlotValue(s: Slot): Option<Data> {
    if s.top.None? then s.below
    else if s.top.value.onlyAppend then Some(Get(s.below) + s.top.value.data)
    else Some(s.top.value.data)
  }

  /** A clean entry repeats the backend. */
  predicate TrueSlot(s: Slot) {
    s.top.Some? && !s.top.value.dirty ==> !s.top.value.onlyAppend && s.below == Some(s.top.value.data)
  }

  // --------------------------------------------------------------------------
  // Client operations
  // --------------------------------------------------------------------------

  datatype Client =
    | Write(offset: nat, data: Data, lifetime: nat, cache: bool, append: bool, removeFromDisk: bool, now: nat)
    | Read(cache: bool)
    | Remove

  datatype Answer = Done | Got(value: Option<Data>) | Removed(ok: bool)

  /** The operation on a store without a cache. */
  function PlainOp(v: Option<Data>, what: Client): (Option<Data>, Answer) {
    match what
    case Write(offset, data, _, _, append, _, _) => (Some(Written(v, offset, data, append)), Done)
    case Read(_) => (v, Got(v))
    case Remove => (None, Removed(v.Some?))
  }

  /** An append-only entry written back by one append and dropped. */
  function WrittenOut(s: Slot): Slot {
    if s.top.Some? && s.top.value.onlyAppend then Slot(None, Some(Get(s.below) + s.top.value.data)) else s
  }

  /** A write that the cache handles. */
  function WriteSlot(s: Slot, offset: nat, data: Data, append: bool): Slot {
    if append && (s.top.None? || s.top.value.onlyAppend) then
      Slot(Some(if s.top.None? then Top(data, true, true) else s.top.value.(data := s.top.value.data + data)), s.below)
    else if s.top.Some? && s.top.value.onlyAppend then
      var whole := Overwritten(WrittenOut(s).below, offset, data);
      Slot(Some(Top(whole, false, false)), Some(whole))
    else
      Slot(Some(Top(Written(SlotValue(s), offset, data, append), false, true)), s.below)
  }

  function ReadSlot(s: Slot, cache: bool): Slot {
    var s' := WrittenOut(s);
    if s'.top.None? && cache && s'.below.Some? then Slot(Some(Top(s'.below.value, false, false)), s'.below) else s'
  }

  /** The operation on the key; what the cache does not handle goes to the backend. */
  function KeyStep(s: Slot, what: Client): (Slot, Answer) {
    match what
    case Write(offset, data, _, cache, append, _, _) =>
      if s.top.None? && !cache then (Slot(None, Some(Written(s.below, offset, data, append))), Done)
      else (WriteSlot(s, offset, data, append), Done)
    case Read(cache) => (ReadSlot(s, cache), Got(SlotValue(s)))
    case Remove => (Slot(None, None), Removed(s.top.Some? || s.below.Some?))
  }

  /** While nothing is on its way, every operation does what it does on the plain store. */
  lemma {:induction false} KeyStepRight(s: Slot, what: Client)
    requires TrueSlot(s)
    ensures var (s', answer) := KeyStep(s, what);
            TrueSlot(s') && (SlotValue(s'), answer) == PlainOp(SlotValue(s), what)
  {
    if what.Write? && what.append && s.top.Some? && s.top.value.onlyAppend {
      Regroup(Get(s.below), s.top.value.data, what.data);
    }
  }

  lemma {:induction false} Regroup(a: Data, b: Data, c: Data)
    ensures (a + b) + c == a + (b + c)
  {
  }

  // --------------------------------------------------------------------------
  // A background write on its way
  // --------------------------------------------------------------------------

  /** Nothing, bytes to append to a key, a copy of an entry to write, or a written entry yet to be dropped if marked. */
  datatype Pending = Nothing | Append(id: Id, raw: Data) | Copy(id: Id, raw: Data) | Check(id: Id)

  /** A write is on its way. */
  predicate Sends(p: Pending) {
    p.Append? || p.Copy?
  }

  /** Whether the operation comes between the two halves of a write of its key. */
  predicate Between(p: Pending, id: Id) {
    Sends(p) && p.id == id
  }

  /** What the backend holds of the key once the write has arrived. */
  function Arrived(p: Pending, below: Option<Data>): Option<Data> {
    match p
    case Append(_, raw) => Some(Get(below) + raw)
    case Copy(_, raw) => Some(raw)
    case _ => below
  }

  function Finished(p: Pending, s: Slot): Slot {
    Slot(s.top, Arrived(p, s.below))
  }

  /** What the backend holds already counts as the write's result. */
  predicate NothingNew(p: Pending, below: Option<Data>) {
    match p
    case Append(_, raw) => below.Some? && raw == []
    case Copy(_, raw) => below == Some(raw)
    case _ => true
  }

  /** The same, for what an append to the key starts from. */
  predicate NothingBelow(p: Pending, below: Option<Data>) {
    match p
    case Append(_, raw) => raw == []
    case Copy(_, raw) => Get(below) == raw
    case _ => true
  }

  /** Writing this to a key that holds `whole` leaves it as it is. */
  predicate Repeats(whole: Data, offset: nat, data: Data, append: bool) {
    if append then data == [] else offset + |data| == |whole| && whole[offset..] == data
  }

  /** Whether a write on the backend and the one on its way may arrive in either order. */
  predicate Commutes(p: Pending, offset: nat, data: Data, append: bool) {
    match p
    case Append(_, raw) => if append then data + raw == raw + data else raw == []
    case Copy(_, raw) => Repeats(raw, offset, data, append)
    case _ => true
  }

  /** When the key ends up with the value that the plain store has. */
  predicate ValueFine(p: Pending, s: Slot, what: Client) {
    match what
    case Write(offset, data, _, cache, append, _, _) =>
      if s.top.None? && !cache then Commutes(p, offset, data, append)
      else append || (s.top.Some? && !s.top.value.onlyAppend)
           || AlikeBelow(SlotValue(s), SlotValue(Finished(p, s)), offset)
    case Read(cache) =>
      if s.top.None? then cache && s.below.Some? ==> NothingNew(p, s.below)
      else if !s.top.value.onlyAppend then true
      else if cache then NothingBelow(p, s.below)
      else Commutes(p, 0, s.top.value.data, true)
    case Remove => false
  }

  /** When no clean entry contradicts the backend once the write has arrived. */
  predicate CleanFine(p: Pending, s: Slot, what: Client) {
    match what
    case Write(offset, data, _, _, append, _, _) =>
      s.top.Some? && s.top.value.onlyAppend && !append ==>
        NothingNew(p, Some(Overwritten(SlotValue(s), offset, data)))
    case Read(cache) =>
      if s.top.None? then cache && s.below.Some? ==> NothingNew(p, s.below)
      else s.top.value.onlyAppend && cache ==> NothingNew(p, SlotValue(s))
    case Remove => true
  }

  /** When the client gets the answer of the plain store. */
  predicate AnswerFine(p: Pending, s: Slot, what: Client) {
    match what
    case Write(_, _, _, _, _, _, _) => true
    case Read(_) =>
      if s.top.None? then NothingNew(p, s.below)
      else s.top.value.onlyAppend ==> NothingBelow(p, s.below)
    case Remove => s.top.Some? || s.below.Some?
  }

  lemma {:induction false} ArrivedSame(p: Pending, below: Option<Data>)
    requires Sends(p)
    ensures Arrived(p, below) == below <==> NothingNew(p, below)
    ensures Get(Arrived(p, below)) == Get(below) <==> NothingBelow(p, below)
  {
    if p.Append? { Longer(Get(below), p.raw); }
  }

  lemma {:induction false} Longer(a: Data, b: Data)
    ensures a + b == a <==> b == []
  {
    assert |a + b| == |a| + |b|;
  }

  lemma {:induction false} RepeatsIs(whole: Data, offset: nat, data: Data, append: bool)
    ensures Written(Some(whole), offset, data, append) == whole <==> Repeats(whole, offset, data, append)
  {
    var w := Written(Some(whole), offset, data, append);
    if append {
      Longer(whole, data);
    } else {
      assert Get(Some(whole)) == whole;
      if w == whole {
        forall i | 0 <= i < |data| ensures whole[offset..][i] == data[i] { assert whole[offset + i] == w[offset + i]; }
        assert whole[offset..] == data;
      }
      if Repeats(whole, offset, data, append) {
        forall i | 0 <= i < |whole| ensures w[i] == whole[i] {
          if i >= offset { assert data[i - offset] == whole[offset..][i - offset]; }
        }
        assert w == whole;
      }
    }
  }

  lemma {:induction false} Cancel(a: Data, b: Data, c: Data)
    ensures a + b == a + c <==> b == c
    ensures b + a == c + a <==> b == c
  {
    if a + b == a + c { assert (a + b)[|a|..] == b && (a + c)[|a|..] == c; }
    if b + a == c + a {
      assert |b| == |c| by { assert |b + a| == |b| + |a| && |c + a| == |c| + |a|; }
      assert (b + a)[..|b|] == b && (c + a)[..|c|] == c;
    }
  }

  /** A write that goes to the backend first. */
  lemma {:induction false} BelowFirst(p: Pending, below: Option<Data>, offset: nat, data: Data, append: bool)
    requires Sends(p)
    ensures
      Arrived(p, Some(Written(below, offset, data, append))) == Some(Written(Arrived(p, below), offset, data, append))
      <==> Commutes(p, offset, data, append)
  {
    if p.Copy? {
      RepeatsIs(p.raw, offset, data, append);
    } else if append {
      var b := Get(below);
      Regroup(b, data, p.raw);
      Regroup(b, p.raw, data);
      Cancel(b, data + p.raw, p.raw + data);
    } else {
      var w, w' := Overwritten(below, offset, data), Overwritten(Arrived(p, below), offset, data);
      assert |w| == |w'| == offset + |data| && |w + p.raw| == |w| + |p.raw|;
      if p.raw == [] {
        assert Get(below) + [] == Get(below);
        assert w + [] == w;
        OverwrittenAlike(below, Arrived(p, below), offset, data);
      }
    }
  }

  /** An append-only entry whose bytes reach the backend first. */
  lemma {:induction false} TopFirst(p: Pending, below: Option<Data>, top: Data)
    requires Sends(p)
    ensures Arrived(p, Some(Get(below) + top)) == Some(Get(Arrived(p, below)) + top) <==> Commutes(p, 0, top, true)
    ensures Get(below) + top == Get(Arrived(p, below)) + top <==> NothingBelow(p, below)
  {
    BelowFirst(p, below, 0, top, true);
    assert Written(below, 0, top, true) == Get(below) + top;
    assert Written(Arrived(p, below), 0, top, true) == Get(Arrived(p, below)) + top;
    Cancel(top, Get(below), Get(Arrived(p, below)));
    ArrivedSame(p, below);
  }

  /** One write while another is on its way. */
  lemma {:induction false} PendingWrite(p: Pending, s: Slot, what: Client)
    requires Sends(p) && TrueSlot(Finished(p, s)) && what.Write?
    ensures var s' := Finished(p, KeyStep(s, what).0);
            && (SlotValue(s') == PlainOp(SlotValue(Finished(p, s)), what).0 <==> ValueFine(p, s, what))
            && (TrueSlot(s') <==> CleanFine(p, s, what))
  {
    hide Written, Overwritten, AlikeBelow, Commutes, NothingNew;
    var Write(offset, data, _, cache, append, _, _) := what;
    var v, w := SlotValue(s), SlotValue(Finished(p, s));
    if s.top.None? && !cache {
      BelowFirst(p, s.below, offset, data, append);
    } else if append {
      WrittenIs(v, offset, data, append);
      WrittenIs(w, offset, data, append);
      if s.top.None? || s.top.value.onlyAppend {
        Regroup(Get(Arrived(p, s.below)), if s.top.None? then [] else s.top.value.data, data);
        assert s.top.None? ==> [] + data == data && Get(w) + [] == Get(w);
      }
    } else {
      WrittenIs(v, offset, data, append);
      WrittenIs(w, offset, data, append);
      OverwrittenAlike(v, w, offset, data);
      ArrivedSame(p, Some(Overwritten(v, offset, data)));
      if s.top.Some? && !s.top.value.onlyAppend { assert v == w; }
    }
  }

  lemma {:induction false} WrittenIs(v: Option<Data>, offset: nat, data: Data, append: bool)
    ensures Written(v, offset, data, append) == if append then Get(v) + data else Overwritten(v, offset, data)
  {
  }

  lemma {:induction false} PendingRead(p: Pending, s: Slot, what: Client)
    requires Sends(p) && TrueSlot(Finished(p, s)) && what.Read?
    ensures var s' := Finished(p, KeyStep(s, what).0);
            && (SlotValue(s') == SlotValue(Finished(p, s)) <==> ValueFine(p, s, what))
            && (TrueSlot(s') <==> CleanFine(p, s, what))
            && (SlotValue(s) == SlotValue(Finished(p, s)) <==> AnswerFine(p, s, what))
  {
    hide Commutes, NothingNew, NothingBelow;
    ArrivedSame(p, s.below);
    if s.top.Some? && s.top.value.onlyAppend {
      TopFirst(p, s.below, s.top.value.data);
      ArrivedSame(p, SlotValue(s));
    }
  }

  /**
   For every client operation that comes between the two halves of a background write: exactly when the
   key ends up with the value of the plain store, exactly when no clean entry contradicts the backend then,
   and exactly when the answer is that of the plain store.
   */
  lemma {:induction false} PendingStep(p: Pending, s: Slot, what: Client)
    requires Sends(p) && TrueSlot(Finished(p, s))
    ensures var (s', answer) := KeyStep(s, what);
            var (v', answer') := PlainOp(SlotValue(Finished(p, s)), what);
            && (SlotValue(Finished(p, s')) == v' <==> ValueFine(p, s, what))
            && (TrueSlot(Finished(p, s')) <==> CleanFine(p, s, what))
            && (answer == answer' <==> AnswerFine(p, s, what))
  {
    match what
    case Write(_, _, _, _, _, _, _) => PendingWrite(p, s, what);
    case Read(_) => PendingRead(p, s, what);
    case Remove =>
  }

  // --------------------------------------------------------------------------
  // The whole backend
  // --------------------------------------------------------------------------

  /** The backend once the write has arrived. */
  function ArrivedDisk(p: Pending, disk: Disk): Disk {
    if Sends(p) then disk[p.id := Arrived(p, Lookup(disk, p.id)).value] else disk
  }

  /** The value of a key, counting a write that is on its way. */
  function Promised(p: Pending, entries: Entries, disk: Disk, x: Id): Option<Data> {
    Value(entries, ArrivedDisk(p, disk), x)
  }

  lemma {:induction false} TakenPromised(entries: Entries, disk: Disk, id: Id)
    requires id in entries && entries[id].onlyAppend
    ensures forall x :: Promised(Append(id, entries[id].data), entries - {id}, disk, x) == Value(entries, disk, x)
  {
  }

  /** A late append: whose value it changes, and when it leaves clean entries true. */
  lemma {:induction false} LateAppend(entries: Entries, disk: Disk, id: Id, raw: Data)
    ensures var disk' := disk[id := Get(Lookup(disk, id)) + raw];
            && (forall x :: Value(entries, disk', x) == Value(entries, disk, x) <==>
                  || x != id || (id in entries && !entries[id].onlyAppend)
                  || (raw == [] && (id in entries || id in disk)))
            && (AllSound(entries, disk, {}) ==>
                  (AllSound(entries, disk', {}) <==> raw == [] || id !in entries || entries[id].synctime != 0))
  {
    var below := Get(Lookup(disk, id));
    var disk' := disk[id := below + raw];
    Longer(below, raw);
    if id in entries {
      Cancel(entries[id].data, below, below + raw);
      if AllSound(entries, disk, {}) {
        assert Sound(entries[id], disk, id);
        assert Sound(entries[id], disk', id) <==> raw == [] || entries[id].synctime != 0;
      }
    }
    if AllSound(entries, disk, {}) {
      forall x | x in entries && x != id ensures Sound(entries[x], disk', x) { assert Sound(entries[x], disk, x); }
    }
  }

  /** An entry will be sound once the write has arrived; after that of a copy, a marked entry is dropped. */
  predicate SoundIn(p: Pending, entries: Entries, disk: Disk, x: Id)
    requires x in entries
  {
    Sound(if (p.Copy? || p.Check?) && x == p.id then entries[x].(marked := false) else entries[x],
          ArrivedDisk(p, disk), x)
  }

  ghost predicate SoundFor(p: Pending, entries: Entries, disk: Disk) {
    forall x :: x in entries ==> SoundIn(p, entries, disk, x)
  }

  lemma {:induction false} SoundForNothing(entries: Entries, disk: Disk)
    ensures SoundFor(Nothing, entries, disk) <==> AllSound(entries, disk, {})
  {
    forall x | x in entries ensures SoundIn(Nothing, entries, disk, x) <==> Sound(entries[x], disk, x) { }
  }

  /** The key as it will be once the write has arrived. */
  function SlotIn(p: Pending, entries: Entries, disk: Disk, x: Id): Slot {
    if Between(p, x) then Finished(p, SlotOf(entries, disk, x)) else SlotOf(entries, disk, x)
  }

  lemma {:induction false} SlotPromised(p: Pending, entries: Entries, disk: Disk, x: Id)
    ensures Promised(p, entries, disk, x) == SlotValue(SlotIn(p, entries, disk, x))
    ensures x in entries && SoundIn(p, entries, disk, x) ==> AppendShape(entries[x])
    ensures (x in entries ==> SoundIn(p, entries, disk, x)) ==> TrueSlot(SlotIn(p, entries, disk, x))
    ensures x in entries && AppendShape(entries[x]) && (entries[x].synctime == 0 ==> !entries[x].marked) ==>
              (SoundIn(p, entries, disk, x) <==> TrueSlot(SlotIn(p, entries, disk, x)))
  {
  }

  /** An operation on one key leaves the others as the plain store has them. */
  lemma {:induction false} OthersKept(p: Pending, e: Entries, d: Disk, e': Entries, d': Disk, id: Id, x: Id)
    requires SoundFor(p, e, d) && Kept(e, d, e', d', {id}) && x != id
    ensures Promised(p, e', d', x) == Promised(p, e, d, x) && (x in e' ==> SoundIn(p, e', d', x))
  {
    assert KeptAt(e, d, e', d', x);
    assert x in e ==> SoundIn(p, e, d, x);
  }

  predicate StateFine(p: Pending, entries: Entries, disk: Disk, id: Id, what: Client) {
    Between(p, id) ==>
      var s := SlotOf(entries, disk, id);
      ValueFine(p, s, what) && CleanFine(p, s, what)
  }

  predicate ReplyFine(p: Pending, entries: Entries, disk: Disk, id: Id, what: Client) {
    Between(p, id) ==> AnswerFine(p, SlotOf(entries, disk, id), what)
  }

  /** What an operation on a key leaves there. */
  predicate Stepped(e: Entries, d: Disk, e': Entries, d': Disk, id: Id, what: Client, answer: Answer) {
    && (SlotOf(e', d', id), answer) == KeyStep(SlotOf(e, d, id), what)
    && (id in e' ==> AppendShape(e'[id]) && (e'[id].synctime == 0 ==> !e'[id].marked))
  }

  /** On the key itself, the result is right exactly under the stated conditions. */
  lemma {:induction false} AtKey(p: Pending, e: Entries, d: Disk, e': Entries, d': Disk, id: Id, what: Client,
                                 answer: Answer)
    requires SoundFor(p, e, d) && Stepped(e, d, e', d', id, what, answer)
    ensures var (v', answer') := PlainOp(Promised(p, e, d, id), what);
            && (Promised(p, e', d', id) == v' && (id in e' ==> SoundIn(p, e', d', id)) <==>
                StateFine(p, e, d, id, what))
            && (answer == answer' <==> ReplyFine(p, e, d, id, what))
  {
    hide SoundIn, Promised, AppendShape, KeyStep, PlainOp, ValueFine, CleanFine, AnswerFine, TrueSlot, SlotOf;
    SlotPromised(p, e, d, id);
    SlotPromised(p, e', d', id);
    assert id in e ==> SoundIn(p, e, d, id);
    if Between(p, id) {
      PendingStep(p, SlotOf(e, d, id), what);
    } else {
      KeyStepRight(SlotOf(e, d, id), what);
    }
    NoEntryTrue(p, e', d', id);
  }

  lemma {:induction false} NoEntryTrue(p: Pending, entries: Entries, disk: Disk, x: Id)
    ensures x !in entries ==> TrueSlot(SlotIn(p, entries, disk, x))
  {
  }

  /** Dropping an entry that is marked and otherwise sound. */
  lemma {:induction false} Checked(entries: Entries, disk: Disk, id: Id)
    requires SoundFor(Check(id), entries, disk)
    ensures if id in entries && entries[id].marked then
              var disk' := if entries[id].synctime != 0 then Flushed(entries[id], disk, id) else disk;
              AllSound(entries - {id}, disk', {}) && SameValues(entries, disk, entries - {id}, disk')
            else AllSound(entries, disk, {})
  {
    forall x | x in entries ensures x != id || !entries[id].marked ==> Sound(entries[x], disk, x) {
      assert SoundIn(Check(id), entries, disk, x);
    }
    if id in entries && entries[id].marked { assert SoundIn(Check(id), entries, disk, id); }
  }
}
