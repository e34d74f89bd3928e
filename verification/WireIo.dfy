/**
 The sending and receiving ends of a connection, as resumable loops over socket
 calls.
 */
module WireIo {
  import opened Basics
  import opened Wire

  /** What one socket call does: moves some bytes, would block, or fails. */
  datatype Io = Moved(k: nat) | WouldBlock | Broken

  datatype Err = Ok | Again | Reset | NoData | Fault

  /** A queued request: header, data and file contents; an absent part is empty. */
  datatype Request = Request(header: Bytes, data: Bytes, file: Bytes)

  /**
   How a loop used the socket: it took results off the front of the script, each of which moved at least a byte,
   and stopped because it was done, would block, met an error, or met a call that moved nothing.
   */
  ghost predicate Used(script: seq<Io>, rest: seq<Io>, err: Err, moved: int) {
    && |rest| <= |script| && rest == script[|script| - |rest|..]
    && (forall i :: 0 <= i < |script| - |rest| ==> script[i].Moved?)
    && moved >= |script| - |rest| - (if err.Reset? || err.NoData? then 1 else 0)
    && (err.Again? ==> rest == [] || rest[0].WouldBlock?)
    && (err.Fault? ==> rest != [] && rest[0].Broken?)
    && (err.Reset? || err.NoData? ==> |rest| < |script| && script[|script| - |rest| - 1] == Moved(0))
  }

  lemma {:induction false} UsedNone(script: seq<Io>)
    ensures Used(script, script, Ok, 0)
  {
  }

  /** One more call that moved something. */
  lemma {:induction false} UsedOne(script: seq<Io>, rest: seq<Io>, moved: int, k: nat)
    requires Used(script, rest, Ok, moved) && rest != [] && rest[0].Moved?
    ensures k > 0 ==> Used(script, rest[1..], Ok, moved + k)
    ensures rest[0].k == 0 ==> Used(script, rest[1..], Reset, moved) && Used(script, rest[1..], NoData, moved)
  {
  }

  lemma {:induction false} UsedStop(script: seq<Io>, rest: seq<Io>, moved: int)
    requires Used(script, rest, Ok, moved)
    ensures rest == [] || rest[0].WouldBlock? ==> Used(script, rest, Again, moved)
    ensures rest != [] && rest[0].Broken? ==> Used(script, rest, Fault, moved)
  {
  }

  lemma {:induction false} UsedThen(script: seq<Io>, mid: seq<Io>, rest: seq<Io>, err: Err, m: int, n: int)
    requires Used(script, mid, Ok, m) && Used(mid, rest, err, n)
    ensures Used(script, rest, err, m + n)
  {
    var a, b := |script| - |mid|, |script| - |rest|;
    assert script == script[..a] + mid;
    assert rest == script[b..];
    forall i | 0 <= i < b ensures script[i].Moved? {
      if i >= a { assert script[i] == mid[i - a]; }
    }
    if err.Reset? || err.NoData? { assert script[b - 1] == mid[b - 1 - a]; }
  }

  lemma {:induction false} Slices(b: Bytes, i: nat, j: nat, k: nat)
    requires i <= j <= k <= |b|
    ensures b[i..k] == b[i..j] + b[j..k]
  {
  }

  /** Every call moves something. */
  predicate Flowing(script: seq<Io>) {
    forall i :: 0 <= i < |script| ==> script[i].Moved? && script[i].k > 0
  }

  /** On a flowing socket a loop stops early only when the script is used up. */
  lemma {:induction false} FlowingUse(script: seq<Io>, rest: seq<Io>, err: Err, moved: int)
    requires Flowing(script) && Used(script, rest, err, moved)
    ensures err.Ok? || (err.Again? && rest == [] && moved >= |script|)
  {
  }

  function Whole(r: Request): Bytes {
    r.header + r.data + r.file
  }

  function Total(rs: seq<Request>): Bytes {
    if rs == [] then [] else Whole(rs[0]) + Total(rs[1..])
  }

  lemma {:induction false} TotalConcat(a: seq<Request>, b: seq<Request>)
    ensures Total(a + b) == Total(a) + Total(b)
  {
    hide Whole;
    if a == [] {
      assert a + b == b;
    } else {
      TotalConcat(a[1..], b);
      assert (a + b)[1..] == a[1..] + b;
      Associate(Whole(a[0]), Total(a[1..]), Total(b));
    }
  }

  lemma {:induction false} TotalOne(r: Request)
    ensures Total([r]) == Whole(r)
  {
  }

  /** The requests before the first queued one are out, and so is its beginning. */
  ghost predicate Sent(wire: Bytes, queued: seq<Request>, list: seq<Request>, offset: nat) {
    && |list| <= |queued| && list == queued[|queued| - |list|..]
    && (list == [] ==> offset == 0)
    && (list != [] ==> offset <= |Whole(list[0])|)
    && wire == Total(queued[..|queued| - |list|]) + (if list == [] then [] else Whole(list[0])[..offset])
  }

  /** What is on the wire is a prefix of everything queued, in order. */
  lemma {:induction false} SentPrefix(wire: Bytes, queued: seq<Request>, list: seq<Request>, offset: nat)
    requires Sent(wire, queued, list, offset)
    ensures wire <= Total(queued)
    ensures list == [] ==> wire == Total(queued)
  {
    var n := |queued| - |list|;
    assert queued == queued[..n] + list;
    TotalConcat(queued[..n], list);
  }

  /** Finishing the first request. */
  lemma {:induction false} SentNext(wire: Bytes, queued: seq<Request>, list: seq<Request>)
    requires list != [] && Sent(wire, queued, list, |Whole(list[0])|)
    ensures Sent(wire, queued, list[1..], 0)
  {
    var n := |queued| - |list|;
    assert queued[..n + 1] == queued[..n] + [list[0]];
    TotalConcat(queued[..n], [list[0]]);
    TotalOne(list[0]);
    assert Whole(list[0])[..|Whole(list[0])|] == Whole(list[0]);
    assert list[1..] != [] ==> Whole(list[1..][0])[..0] == [];
  }

  class Sender {
    var list: seq<Request>
    var sendOffset: nat
    var wire: Bytes
    ghost var queued: seq<Request>

    ghost predicate Valid()
      reads this
    {
      Sent(wire, queued, list, sendOffset)
    }

    constructor ()
      ensures Valid() && queued == [] && wire == []
    {
      list, sendOffset, wire, queued := [], 0, [], [];
    }

    /** `dnet_io_req_queue`. */
    method Queue(r: Request)
      requires Valid()
      modifies `list, `queued
      ensures Valid() && queued == old(queued) + [r]
    {
      ghost var n := |queued| - |list|;
      assert (queued + [r])[..n] == queued[..n];
      assert (queued + [r])[n..] == list + [r];
      list := list + [r];
      queued := queued + [r];
    }

    /** Sends a buffer, counting what went out. */
    method SendNolock(data: Bytes, script: seq<Io>) returns (err: Err, rest: seq<Io>)
      modifies `sendOffset, `wire
      ensures old(sendOffset) <= sendOffset <= old(sendOffset) + |data|
      ensures Advanced(old(wire), wire, data, 0, sendOffset - old(sendOffset))
      ensures err.Ok? ==> sendOffset == old(sendOffset) + |data|
      ensures !err.Ok? ==> sendOffset < old(sendOffset) + |data|
      ensures Used(script, rest, err, sendOffset - old(sendOffset))
    {
      hide Used;
      err, rest := Ok, script;
      UsedNone(script);
      var size: nat := |data|;
      while size > 0
        invariant size <= |data| && sendOffset == old(sendOffset) + (|data| - size)
        invariant wire == old(wire) + data[..|data| - size]
        invariant err.Ok? && Used(script, rest, Ok, sendOffset - old(sendOffset))
      {
        UsedStop(script, rest, sendOffset - old(sendOffset));
        var at := |data| - size;
        if rest == [] || rest[0].WouldBlock? {
          err := Again;
          break;
        }
        if rest[0].Broken? {
          err := Fault;
          break;
        }
        var k := if rest[0].k > size then size else rest[0].k;
        UsedOne(script, rest, sendOffset - old(sendOffset), k);
        rest := rest[1..];
        if k == 0 {
          err := Reset;
          break;
        }
        Slices(data, 0, at, at + k);
        assert data[..at + k] == data[0..at + k] && data[..at] == data[0..at];
        wire := wire + data[at..at + k];
        size := size - k;
        sendOffset := sendOffset + k;
      }
      assert data[..|data| - size] == data[0..|data| - size];
    }

    /** Sends part of a file, counting what went out; a file that ends early is an error. */
    method SendFdNolock(file: Bytes, offset: nat, dsize: nat, script: seq<Io>) returns (err: Err, rest: seq<Io>)
      requires offset + dsize == |file|
      modifies `sendOffset, `wire
      ensures old(sendOffset) <= sendOffset <= old(sendOffset) + dsize
      ensures Advanced(old(wire), wire, file, offset, offset + (sendOffset - old(sendOffset)))
      ensures err.Ok? ==> sendOffset == old(sendOffset) + dsize
      ensures !err.Ok? ==> sendOffset < old(sendOffset) + dsize
      ensures Used(script, rest, err, sendOffset - old(sendOffset))
    {
      hide Used;
      err, rest := Ok, script;
      UsedNone(script);
      var size: nat, at: nat := dsize, offset;
      while size > 0
        invariant size <= dsize && at == offset + (dsize - size) && sendOffset == old(sendOffset) + (dsize - size)
        invariant wire == old(wire) + file[offset..at]
        invariant err.Ok? && Used(script, rest, Ok, sendOffset - old(sendOffset))
      {
        UsedStop(script, rest, sendOffset - old(sendOffset));
        if rest == [] || rest[0].WouldBlock? {
          err := Again;
          break;
        }
        if rest[0].Broken? {
          err := Fault;
          break;
        }
        var k := if rest[0].k > size then size else rest[0].k;
        UsedOne(script, rest, sendOffset - old(sendOffset), k);
        rest := rest[1..];
        if k == 0 {
          err := NoData;
          break;
        }
        Slices(file, offset, at, at + k);
        wire := wire + file[at..at + k];
        at := at + k;
        size := size - k;
        sendOffset := sendOffset + k;
      }
    }

    method SendHeader(r: Request, script: seq<Io>) returns (err: Err, rest: seq<Io>)
      requires sendOffset < |r.header|
      modifies `sendOffset, `wire
      ensures Advanced(old(wire), wire, Whole(r), old(sendOffset), sendOffset)
      ensures sendOffset <= |r.header| && (err.Ok? <==> sendOffset == |r.header|)
      ensures Used(script, rest, err, sendOffset - old(sendOffset))
    {
      hide Whole, Advanced, Used;
      err, rest := SendNolock(r.header[sendOffset..], script);
      SentHeader(r, old(wire), wire, old(sendOffset), sendOffset);
    }

    method SendData(r: Request, script: seq<Io>) returns (err: Err, rest: seq<Io>)
      requires |r.header| <= sendOffset < |r.header| + |r.data|
      modifies `sendOffset, `wire
      ensures Advanced(old(wire), wire, Whole(r), old(sendOffset), sendOffset)
      ensures sendOffset <= |r.header| + |r.data| && (err.Ok? <==> sendOffset == |r.header| + |r.data|)
      ensures Used(script, rest, err, sendOffset - old(sendOffset))
    {
      hide Whole, Advanced, Used;
      err, rest := SendNolock(r.data[sendOffset - |r.header|..], script);
      SentData(r, old(wire), wire, old(sendOffset), sendOffset);
    }

    method SendFile(r: Request, script: seq<Io>) returns (err: Err, rest: seq<Io>)
      requires |r.header| + |r.data| <= sendOffset < |Whole(r)|
      modifies `sendOffset, `wire
      ensures Advanced(old(wire), wire, Whole(r), old(sendOffset), sendOffset)
      ensures sendOffset <= |Whole(r)| && (err.Ok? <==> sendOffset == |Whole(r)|)
      ensures Used(script, rest, err, sendOffset - old(sendOffset))
    {
      hide Whole, Advanced, Used;
      WholeSize(r);
      var offset := sendOffset - |r.data| - |r.header|;
      err, rest := SendFdNolock(r.file, offset, |r.file| - offset, script);
      SentFile(r, old(wire), wire, old(sendOffset), sendOffset);
    }

    /** `dnet_send_request`: resumes the request where the last call stopped. */
    method SendRequest(r: Request, script: seq<Io>) returns (err: Err, rest: seq<Io>)
      requires sendOffset <= |Whole(r)|
      modifies `sendOffset, `wire
      ensures old(sendOffset) <= sendOffset <= |Whole(r)|
      ensures Advanced(old(wire), wire, Whole(r), old(sendOffset), sendOffset)
      ensures err.Ok? <==> sendOffset == |Whole(r)|
      ensures Used(script, rest, err, sendOffset - old(sendOffset))
    {
      hide Whole, Advanced, Used;
      err, rest := Ok, script;
      UsedNone(script);
      WholeSize(r);
      Stays(wire, Whole(r), sendOffset);
      if sendOffset < |r.header| {
        err, rest := SendHeader(r, rest);
        UsedThen(script, script, rest, err, 0, sendOffset - old(sendOffset));
        AdvancedBound(old(wire), wire, Whole(r), old(sendOffset), sendOffset);
        if err != Ok {
          return;
        }
      }
      label Data:
      if sendOffset < |r.header| + |r.data| {
        ghost var mid := rest;
        err, rest := SendData(r, rest);
        UsedThen(script, mid, rest, err, old@Data(sendOffset) - old(sendOffset), sendOffset - old@Data(sendOffset));
        Joined(old(wire), old@Data(wire), wire, Whole(r), old(sendOffset), old@Data(sendOffset), sendOffset);
        if err != Ok {
          return;
        }
      }
      label File:
      if sendOffset < |r.header| + |r.data| + |r.file| {
        ghost var mid := rest;
        err, rest := SendFile(r, rest);
        UsedThen(script, mid, rest, err, old@File(sendOffset) - old(sendOffset), sendOffset - old@File(sendOffset));
        Joined(old(wire), old@File(wire), wire, Whole(r), old(sendOffset), old@File(sendOffset), sendOffset);
      }
    }

    /** `dnet_process_send_single`: sends requests in order until the socket would block, fails, or all are out. */
    method ProcessSendSingle(script: seq<Io>) returns (err: Err, rest: seq<Io>)
      requires Valid()
      modifies `list, `sendOffset, `wire
      ensures Valid() && old(wire) <= wire && err != Ok
      ensures |list| <= |old(list)|
      ensures Used(script, rest, if list == [] then Ok else err, |wire| - |old(wire)|)
      ensures list == [] ==> err.Again?
      ensures Flowing(script) && |old(wire)| + |script| >= |Total(queued)| ==> list == [] && wire == Total(queued)
    {
      hide Sent, Advanced, Whole, Used, Flowing, Total;
      err, rest := Again, script;
      UsedNone(script);
      while true
        invariant Valid() && old(wire) <= wire && |list| <= |old(list)|
        invariant Used(script, rest, Ok, |wire| - |old(wire)|)
        decreases |list|
      {
        if list == [] {
          SentPrefix(wire, queued, list, sendOffset);
          return Again, rest;
        }
        var r := list[0];
        ghost var mid := rest;
        SentBound(wire, queued, list, sendOffset);
        ghost var wire0, offset0 := wire, sendOffset;
        err, rest := SendRequest(r, rest);
        SentMore(wire0, wire, queued, list, offset0, sendOffset);
        AdvancedPrefix(wire0, wire, Whole(r), offset0, sendOffset);
        UsedThen(script, mid, rest, err, |wire0| - |old(wire)|, sendOffset - offset0);
        if sendOffset == |r.header| + |r.data| + |r.file| {
          WholeSize(r);
          SentNext(wire, queued, list);
          list := list[1..];
          sendOffset := 0;
        }
        WholeSize(r);
        if err != Ok {
          SentShort(wire, queued, list, sendOffset);
          if Flowing(script) { FlowingUse(script, rest, err, |wire| - |old(wire)|); }
          return;
        }
      }
    }
  }

  /** Bytes `a` to `b` of `w` went out. */
  ghost predicate Advanced(wire: Bytes, wire': Bytes, w: Bytes, a: nat, b: nat) {
    a <= b <= |w| && wire' == wire + w[a..b]
  }

  lemma {:induction false} Stays(wire: Bytes, w: Bytes, a: nat)
    requires a <= |w|
    ensures Advanced(wire, wire, w, a, a)
  {
  }

  lemma {:induction false} AdvancedBound(wire: Bytes, wire': Bytes, w: Bytes, a: nat, b: nat)
    requires Advanced(wire, wire', w, a, b)
    ensures a <= b <= |w|
  {
  }

  lemma {:induction false} WholeSize(r: Request)
    ensures |Whole(r)| == |r.header| + |r.data| + |r.file|
  {
  }

  lemma {:induction false} SentHeader(r: Request, wire: Bytes, wire': Bytes, a: nat, b: nat)
    requires a <= b <= |r.header| && Advanced(wire, wire', r.header[a..], 0, b - a)
    ensures Advanced(wire, wire', Whole(r), a, b)
  {
  }

  lemma {:induction false} SentData(r: Request, wire: Bytes, wire': Bytes, a: nat, b: nat)
    requires |r.header| <= a <= b <= |r.header| + |r.data| && Advanced(wire, wire', r.data[a - |r.header|..], 0, b - a)
    ensures Advanced(wire, wire', Whole(r), a, b)
  {
  }

  lemma {:induction false} SentFile(r: Request, wire: Bytes, wire': Bytes, a: nat, b: nat)
    requires var h := |r.header| + |r.data|;
             h <= a <= b <= |Whole(r)| && Advanced(wire, wire', r.file, a - h, (a - h) + (b - a))
    ensures Advanced(wire, wire', Whole(r), a, b)
  {
  }

  lemma {:induction false} Joined(wire: Bytes, wire': Bytes, wire'': Bytes, w: Bytes, a: nat, b: nat, c: nat)
    requires Advanced(wire, wire', w, a, b) && Advanced(wire', wire'', w, b, c)
    ensures Advanced(wire, wire'', w, a, c) && a <= b <= c <= |w|
  {
  }

  /** Sending on moves the front of what is out. */
  lemma {:induction false} SentMore(wire: Bytes, wire': Bytes, queued: seq<Request>, list: seq<Request>, a: nat, b: nat)
    requires list != [] && Sent(wire, queued, list, a) && Advanced(wire, wire', Whole(list[0]), a, b)
    ensures Sent(wire', queued, list, b)
  {
  }

  lemma {:induction false} SentBound(wire: Bytes, queued: seq<Request>, list: seq<Request>, offset: nat)
    requires Sent(wire, queued, list, offset) && list != []
    ensures offset <= |Whole(list[0])|
  {
  }

  lemma {:induction false} AdvancedPrefix(wire: Bytes, wire': Bytes, w: Bytes, a: nat, b: nat)
    requires Advanced(wire, wire', w, a, b)
    ensures wire <= wire' && |wire'| == |wire| + (b - a)
  {
  }

  /** A request that is not out leaves the wire short of everything queued. */
  lemma {:induction false} SentShort(wire: Bytes, queued: seq<Request>, list: seq<Request>, offset: nat)
    requires Sent(wire, queued, list, offset) && list != [] && offset < |Whole(list[0])|
    ensures |wire| < |Total(queued)|
  {
    hide Whole;
    var n := |queued| - |list|;
    assert queued == queued[..n] + list;
    TotalConcat(queued[..n], list);
    assert Total(list) == Whole(list[0]) + Total(list[1..]);
  }

  // --------------------------------------------------------------------------
  // Receiving
  // --------------------------------------------------------------------------

  /** A buffer after some bytes were received into it. */
  function Stored(buf: Bytes, at: nat, piece: Bytes): (r: Bytes)
    requires at + |piece| <= |buf|
    ensures |r| == |buf| && r[..at + |piece|] == buf[..at] + piece
  {
    buf[..at] + piece + buf[at + |piece|..]
  }

  /** Reading a header, or the payload behind the header in a larger buffer. */
  predicate Reading(rcvCmd: Bytes, rcvData: Bytes, cmd: bool, offset: nat, end: nat) {
    && |rcvCmd| == HEADER && offset <= end
    && (cmd ==> end == HEADER)
    && (!cmd ==> && |rcvData| == end && REQ + HEADER <= offset
                 && end == REQ + HEADER + PayloadSize(rcvData[REQ..REQ + HEADER]))
  }

  /** The bytes of the message being read. */
  function Partial(rcvCmd: Bytes, rcvData: Bytes, cmd: bool, offset: nat, end: nat): Bytes
    requires Reading(rcvCmd, rcvData, cmd, offset, end)
  {
    if cmd then rcvCmd[..offset] else rcvData[REQ..offset]
  }

  lemma {:induction false} PartialGrows(rcvCmd: Bytes, rcvData: Bytes, cmd: bool, offset: nat, end: nat, piece: Bytes)
    requires Reading(rcvCmd, rcvData, cmd, offset, end) && offset + |piece| <= end
    ensures var rcvCmd' := if cmd then Stored(rcvCmd, offset, piece) else rcvCmd;
            var rcvData' := if cmd then rcvData else Stored(rcvData, offset, piece);
            && Reading(rcvCmd', rcvData', cmd, offset + |piece|, end)
            && Partial(rcvCmd', rcvData', cmd, offset + |piece|, end)
               == Partial(rcvCmd, rcvData, cmd, offset, end) + piece
  {
    if !cmd {
      var rcvData' := Stored(rcvData, offset, piece);
      assert rcvData'[REQ..REQ + HEADER] == rcvData[REQ..REQ + HEADER];
      assert rcvData'[REQ..offset + |piece|] == rcvData[REQ..offset] + piece;
    }
  }

  /** The buffer allocated once the header is complete. */
  function Allocated(rcvCmd: Bytes): Bytes
    requires |rcvCmd| == HEADER
  {
    seq(REQ, _ => 0) + rcvCmd + seq(PayloadSize(rcvCmd), _ => 0)
  }

  lemma {:induction false} HeaderDone(rcvCmd: Bytes, rcvData: Bytes)
    requires |rcvCmd| == HEADER
    ensures var data, offset := Allocated(rcvCmd), REQ + HEADER;
            && Reading(rcvCmd, data, false, offset, offset + PayloadSize(rcvCmd))
            && Reading(rcvCmd, rcvData, true, HEADER, HEADER)
            && Partial(rcvCmd, data, false, offset, offset + PayloadSize(rcvCmd))
               == Partial(rcvCmd, rcvData, true, HEADER, HEADER)
  {
  }

  /** The request handed to the pool when its buffer is full. */
  function Completed(rcvData: Bytes): Message
    requires |rcvData| >= REQ + HEADER
  {
    Message(rcvData[REQ..REQ + HEADER], rcvData[REQ + HEADER..])
  }

  lemma {:induction false} CompletedFlat(rcvCmd: Bytes, rcvData: Bytes, end: nat)
    requires Reading(rcvCmd, rcvData, false, end, end)
    ensures WellFormed(Completed(rcvData)) && Flat(Completed(rcvData)) == Partial(rcvCmd, rcvData, false, end, end)
  {
  }

  lemma {:induction false} MessageDone(consumed: Bytes, delivered: seq<Message>, m: Message)
    requires Received(consumed, delivered, Flat(m)) && WellFormed(m)
    ensures Received(consumed, delivered + [m], [])
  {
    hide Flat;
    StreamConcat(delivered, [m]);
    StreamOne(m);
  }

  /** A message being read, with room left, is not yet whole. */
  lemma {:induction false} PartialIncomplete(rcvCmd: Bytes, rcvData: Bytes, cmd: bool, offset: nat, end: nat)
    requires Reading(rcvCmd, rcvData, cmd, offset, end) && offset < end
    ensures Incomplete(Partial(rcvCmd, rcvData, cmd, offset, end))
  {
    if !cmd {
      assert rcvData[REQ..offset][..HEADER] == rcvData[REQ..REQ + HEADER];
    }
  }

  ghost predicate Received(consumed: Bytes, delivered: seq<Message>, partial: Bytes) {
    AllWellFormed(delivered) && consumed == Stream(delivered) + partial
  }

  lemma {:induction false} ReceivedMore(consumed: Bytes, delivered: seq<Message>, partial: Bytes, piece: Bytes)
    requires Received(consumed, delivered, partial)
    ensures Received(consumed + piece, delivered, partial + piece)
  {
  }

  /** `left` is what is not yet read of `stream`, and the rest has been consumed. */
  ghost predicate Read(consumed: Bytes, consumed': Bytes, stream: Bytes, left: Bytes) {
    && |left| <= |stream| && left == stream[|stream| - |left|..]
    && consumed' == consumed + stream[..|stream| - |left|]
  }

  lemma {:induction false} ReadNothing(consumed: Bytes, stream: Bytes)
    ensures Read(consumed, consumed, stream, stream)
  {
  }

  lemma {:induction false} ReadMore(consumed: Bytes, consumed': Bytes, stream: Bytes, left: Bytes, k: nat)
    requires Read(consumed, consumed', stream, left) && k <= |left|
    ensures Read(consumed, consumed' + left[..k], stream, left[k..])
  {
  }

  class Receiver {
    var rcvCmd: Bytes
    var rcvData: Bytes
    var cmd: bool
    var rcvOffset: nat
    var rcvEnd: nat
    var delivered: seq<Message>
    ghost var consumed: Bytes

    ghost predicate Valid()
      reads this
    {
      && Reading(rcvCmd, rcvData, cmd, rcvOffset, rcvEnd) && rcvOffset < rcvEnd
      && Received(consumed, delivered, Partial(rcvCmd, rcvData, cmd, rcvOffset, rcvEnd))
    }

    constructor ()
      ensures Valid() && delivered == [] && consumed == []
    {
      rcvCmd, rcvData, cmd := seq(HEADER, _ => 0), [], true;
      rcvOffset, rcvEnd, delivered, consumed := 0, HEADER, [], [];
    }

    /**
     `dnet_schedule_command`: start over with a header.  The receiver is then in step with the stream
     exactly when all it has read is delivered, that is, when no message was cut short.
     */
    method ScheduleCommand()
      requires |rcvCmd| == HEADER
      modifies `rcvData, `cmd, `rcvOffset, `rcvEnd
      ensures Reading(rcvCmd, rcvData, cmd, rcvOffset, rcvEnd)
      ensures Partial(rcvCmd, rcvData, cmd, rcvOffset, rcvEnd) == []
      ensures Valid() <==> Received(consumed, delivered, [])
    {
      hide Received;
      cmd, rcvData := true, [];
      rcvEnd, rcvOffset := HEADER, 0;
    }

    /** One `recv` of `k` bytes into the current buffer. */
    method Take(left: Bytes, k: nat) returns (rest: Bytes)
      requires Valid() && 0 < k <= rcvEnd - rcvOffset && k <= |left|
      modifies `rcvCmd, `rcvData, `rcvOffset, `consumed
      ensures rest == left[k..] && consumed == old(consumed) + left[..k] && rcvOffset == old(rcvOffset) + k
      ensures Reading(rcvCmd, rcvData, cmd, rcvOffset, rcvEnd)
      ensures Received(consumed, delivered, Partial(rcvCmd, rcvData, cmd, rcvOffset, rcvEnd))
    {
      hide Received;
      var piece := left[..k];
      PartialGrows(rcvCmd, rcvData, cmd, rcvOffset, rcvEnd, piece);
      ReceivedMore(consumed, delivered, Partial(rcvCmd, rcvData, cmd, rcvOffset, rcvEnd), piece);
      if cmd {
        rcvCmd := Stored(rcvCmd, rcvOffset, piece);
      } else {
        rcvData := Stored(rcvData, rcvOffset, piece);
      }
      rcvOffset := rcvOffset + k;
      consumed := consumed + piece;
      rest := left[k..];
    }

    /** Hands the completed request to the pool and starts over. */
    method Deliver()
      requires !cmd && rcvOffset == rcvEnd && Reading(rcvCmd, rcvData, cmd, rcvOffset, rcvEnd)
      requires Received(consumed, delivered, Partial(rcvCmd, rcvData, cmd, rcvOffset, rcvEnd))
      modifies `rcvData, `cmd, `rcvOffset, `rcvEnd, `delivered
      ensures Valid() && |old(rcvData)| >= REQ + HEADER && delivered == old(delivered) + [Completed(old(rcvData))]
    {
      hide Received, Partial, Flat;
      CompletedFlat(rcvCmd, rcvData, rcvEnd);
      MessageDone(consumed, delivered, Completed(rcvData));
      delivered := delivered + [Completed(rcvData)];
      ScheduleCommand();
    }

    /**
     `dnet_process_recv_single`: reads until one message is complete or the socket has no more.  `stream`
     is what the peer has sent and this end has not yet read.
     */
    method RecvSingle(stream: Bytes, script: seq<Io>) returns (err: Err, left: Bytes, rest: seq<Io>)
      requires Valid()
      modifies this
      ensures err.Ok? || err.Again? ==> Valid() && Read(old(consumed), consumed, stream, left)
      ensures err.Ok? ==> exists m :: delivered == old(delivered) + [m]
      ensures !err.Ok? ==> delivered == old(delivered)
      ensures Used(script, rest, if err.Again? && left == [] then Ok else err, |consumed| - |old(consumed)|)
    {
      hide Received, Reading, Partial, Read, Stored, PayloadSize, Completed, Used;
      err, left, rest := Again, stream, script;
      ReadNothing(consumed, stream);
      UsedNone(script);
      while true
        invariant Valid() && delivered == old(delivered) && Read(old(consumed), consumed, stream, left)
        invariant Used(script, rest, Ok, |consumed| - |old(consumed)|)
        decreases |left|
      {
        UsedStop(script, rest, |consumed| - |old(consumed)|);
        var size := rcvEnd - rcvOffset;
        if rest == [] || left == [] || rest[0].WouldBlock? {
          return Again, left, rest;
        }
        if rest[0].Broken? || rest[0].k == 0 {
          if rest[0].Broken? {
            err := Fault;
          } else {
            err := Reset;
            UsedOne(script, rest, |consumed| - |old(consumed)|, 0);
            rest := rest[1..];
          }
          ReadingBound(rcvCmd, rcvData, cmd, rcvOffset, rcvEnd);
          ScheduleCommand();
          return;
        }
        var k := if rest[0].k > size then size else rest[0].k;
        k := if k > |left| then |left| else k;
        UsedOne(script, rest, |consumed| - |old(consumed)|, k);
        rest := rest[1..];
        ReadMore(old(consumed), consumed, stream, left, k);
        left := Take(left, k);
        if rcvOffset != rcvEnd {
          ReadingBound(rcvCmd, rcvData, cmd, rcvOffset, rcvEnd);
          continue;
        }
        if cmd {
          ReadingBound(rcvCmd, rcvData, cmd, rcvOffset, rcvEnd);
          HeaderDone(rcvCmd, rcvData);
          rcvData := Allocated(rcvCmd);
          rcvOffset := REQ + HEADER;
          rcvEnd := rcvOffset + PayloadSize(rcvCmd);
          cmd := false;
          if PayloadSize(rcvCmd) != 0 {
            continue;
          }
        }
        Deliver();
        return Ok, left, rest;
      }
    }
  }

  lemma {:induction false} ReadingBound(rcvCmd: Bytes, rcvData: Bytes, cmd: bool, offset: nat, end: nat)
    requires Reading(rcvCmd, rcvData, cmd, offset, end)
    ensures offset <= end && |rcvCmd| == HEADER && (cmd ==> end == HEADER)
    ensures !cmd ==> |rcvData| == end >= REQ + HEADER
  {
  }

  // --------------------------------------------------------------------------
  // Both ends
  // --------------------------------------------------------------------------

  /** A request whose header announces the size of what follows. */
  predicate Framed(r: Request) {
    |Whole(r)| >= HEADER && PayloadSize(Whole(r)[..HEADER]) == |Whole(r)| - HEADER
  }

  ghost predicate AllFramed(rs: seq<Request>) {
    forall i :: 0 <= i < |rs| ==> Framed(rs[i])
  }

  function MessageOf(r: Request): Message
    requires Framed(r)
  {
    Message(Whole(r)[..HEADER], Whole(r)[HEADER..])
  }

  function Messages(rs: seq<Request>): seq<Message>
    requires AllFramed(rs)
  {
    seq(|rs|, i requires 0 <= i < |rs| => MessageOf(rs[i]))
  }

  lemma {:induction false} TotalIsStream(rs: seq<Request>)
    requires AllFramed(rs)
    ensures Total(rs) == Stream(Messages(rs)) && AllWellFormed(Messages(rs))
  {
    if rs != [] {
      TotalIsStream(rs[1..]);
      assert Messages(rs)[1..] == Messages(rs[1..]);
      assert Flat(MessageOf(rs[0])) == Whole(rs[0]);
    }
  }

  /**
   However sends and receives are split: the messages delivered are the first ones queued, in order,
   and all of them once everything sent has been read.
   */
  lemma {:induction false} EndToEnd(wire: Bytes, queued: seq<Request>, list: seq<Request>, offset: nat,
                                    consumed: Bytes, delivered: seq<Message>, partial: Bytes)
    requires Sent(wire, queued, list, offset) && AllFramed(queued)
    requires Received(consumed, delivered, partial) && consumed <= wire
    ensures delivered <= Messages(queued)
    ensures list == [] && consumed == wire && Incomplete(partial) ==> delivered == Messages(queued) && partial == []
  {
    SentPrefix(wire, queued, list, offset);
    TotalIsStream(queued);
    Deciphered(delivered, partial, Messages(queued));
  }

  /** The same for a sender and a receiver between calls. */
  lemma {:induction false} TwoEnds(s: Sender, r: Receiver)
    requires s.Valid() && r.Valid() && AllFramed(s.queued) && r.consumed <= s.wire
    ensures r.delivered <= Messages(s.queued)
    ensures s.list == [] && r.consumed == s.wire ==> r.delivered == Messages(s.queued)
  {
    PartialIncomplete(r.rcvCmd, r.rcvData, r.cmd, r.rcvOffset, r.rcvEnd);
    EndToEnd(s.wire, s.queued, s.list, s.sendOffset,
             r.consumed, r.delivered, Partial(r.rcvCmd, r.rcvData, r.cmd, r.rcvOffset, r.rcvEnd));
  }
}
