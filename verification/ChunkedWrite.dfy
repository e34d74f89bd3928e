/**
 Writing a large object in chunks: a prepare, plain writes and a commit, each sent
 only to the groups that acknowledged the one before.
 */
module ChunkedWrite {
  import opened Basics

  type GroupId = nat

  datatype Kind = Whole | Prepare | Plain | Commit

  /** A write command: where it goes, what it carries, and the size announced with a prepare or commit. */
  datatype Write = Write(kind: Kind, offset: nat, data: Bytes, total: nat, groups: set<GroupId>)

  /** What a write's callback gets: an error, or the groups that answered positively. */
  datatype Reply = Failed | Acked(groups: set<GroupId>)

  function Payload(log: seq<Write>): Bytes {
    if log == [] then [] else Payload(log[..|log| - 1]) + log[|log| - 1].data
  }

  lemma {:induction false} PayloadSnoc(log: seq<Write>, w: Write)
    ensures Payload(log + [w]) == Payload(log) + w.data
  {
  }

  /** The commands follow each other without gap or overlap, starting with the prepare. */
  ghost predicate Tiled(log: seq<Write>, content: Bytes, remote: nat) {
    && |log| > 0
    && Payload(log) <= content
    && forall i :: 0 <= i < |log| ==>
         && Placed(log[i], remote + |Payload(log[..i])|, remote + |content|)
         && (log[i].kind == Prepare <==> i == 0)
         && (log[i].kind == Commit ==> i == |log| - 1)
  }

  predicate Placed(w: Write, offset: nat, total: nat) {
    w.offset == offset && w.data != [] && !w.kind.Whole? && (w.kind != Plain ==> w.total == total)
  }

  /** Every group that got a command had acknowledged all earlier ones. */
  ghost predicate Acknowledged(log: seq<Write>, replies: seq<Reply>) {
    && |log| <= |replies| + 1
    && forall i, j :: 0 <= i < j < |log| ==>
         replies[i].Acked? && log[j].groups <= replies[i].groups && log[j].groups <= log[i].groups
  }

  /** All commands but the commit carry a full chunk. */
  ghost predicate FullChunks(log: seq<Write>, chunk: nat) {
    forall i :: 0 <= i < |log| && log[i].kind != Commit ==> |log[i].data| == chunk
  }

  /** The groups that are left after the first `i` replies. */
  function Survivors(to: set<GroupId>, script: seq<Reply>, i: nat): set<GroupId>
    requires i <= |script| && forall j :: 0 <= j < i ==> script[j].Acked?
  {
    if i == 0 then to else Survivors(to, script, i - 1) * script[i - 1].groups
  }

  /** Each reply so far was positive, and each command went to exactly the groups that acknowledged all before it. */
  ghost predicate Followed(log: seq<Write>, script: seq<Reply>, to: set<GroupId>) {
    && 0 < |log| <= |script| + 1
    && (forall j :: 0 <= j < |log| - 1 ==> script[j].Acked?)
    && (forall i :: 0 <= i < |log| ==> log[i].groups == Survivors(to, script, i))
  }

  lemma {:induction false} FollowedNext(log: seq<Write>, script: seq<Reply>, to: set<GroupId>, w: Write)
    requires Followed(log, script, to) && |log| <= |script| && script[|log| - 1].Acked?
    requires w.groups == script[|log| - 1].groups * log[|log| - 1].groups
    ensures Followed(log + [w], script, to)
  {
  }

  lemma {:induction false} FollowedFirst(log: seq<Write>, script: seq<Reply>, to: set<GroupId>)
    requires |log| == 1 && log[0].groups == to
    ensures Followed(log, script, to)
  {
  }

  class ChunkHandler {
    const content: Bytes
    const remoteOffset: nat
    const chunkSize: nat
    var localOffset: nat
    var groups: set<GroupId>
    var log: seq<Write>

    /** After the write at `localOffset`, one chunk long, was sent. */
    ghost predicate Valid(replies: seq<Reply>)
      reads this
    {
      && 0 < chunkSize < |content| && localOffset + chunkSize < |content|
      && Tiled(log, content, remoteOffset) && |Payload(log)| == localOffset + chunkSize
      && log[|log| - 1].kind != Commit && log[|log| - 1].groups == groups
      && |replies| + 1 == |log| && Acknowledged(log, replies)
      && localOffset == (|log| - 1) * chunkSize && FullChunks(log, chunkSize)
    }

    constructor (file: Bytes, remote: nat, chunk: nat, to: set<GroupId>)
      requires 0 < chunk < |file|
      ensures Valid([]) && |log| == 1 && content == file && remoteOffset == remote && chunkSize == chunk && groups == to
      ensures log[0].groups == to
    {
      content, remoteOffset, chunkSize, localOffset, groups := file, remote, chunk, 0, to;
      var prepare := Write(Prepare, remote, file[..chunk], remote + |file|, to);
      log := [prepare];
      new;
      assert [prepare][..0] == [];
      PayloadSnoc([], prepare);
      assert [] + [prepare] == [prepare] && [] + file[..chunk] == file[..chunk];
    }

    /** `chunk_handler::write_next`: sends the next chunk to the groups that acknowledged; true when it was the last. */
    method WriteNext(reply: Reply, ghost replies: seq<Reply>) returns (last: bool)
      requires Valid(replies) && reply.Acked? && reply.groups <= groups
      modifies `groups, `localOffset, `log
      ensures !last ==> Valid(replies + [reply]) && localOffset == old(localOffset) + chunkSize
      ensures last ==> Finished(log, content, remoteOffset, replies + [reply])
      ensures |log| == |old(log)| + 1 && log[..|old(log)|] == old(log)
      ensures log[|old(log)|].groups == reply.groups == groups
      ensures last ==> (|log| - 1) * chunkSize < |content| <= |log| * chunkSize && FullChunks(log, chunkSize)
    {
      hide Tiled, Acknowledged, Payload;
      TiledFacts(log, content, remoteOffset);
      assert |log| * chunkSize == (|log| - 1) * chunkSize + chunkSize;
      assert (|log| + 1) * chunkSize == |log| * chunkSize + chunkSize;
      groups := reply.groups;
      localOffset := localOffset + chunkSize;
      var w;
      if localOffset + chunkSize >= |content| {
        w := Write(Commit, remoteOffset + localOffset, content[localOffset..], remoteOffset + |content|, groups);
        last := true;
        Sliced(content, localOffset, |content|);
      } else {
        w := Write(Plain, remoteOffset + localOffset, content[localOffset..localOffset + chunkSize], 0, groups);
        last := false;
        Sliced(content, localOffset, localOffset + chunkSize);
      }
      PayloadSnoc(log, w);
      TiledNext(log, w, content, remoteOffset);
      AcknowledgedNext(log, w, replies, reply);
      log := log + [w];
    }
  }

  /** The whole content is on its way: one prepare, plain writes, one commit. */
  ghost predicate Finished(log: seq<Write>, content: Bytes, remote: nat, replies: seq<Reply>) {
    && Tiled(log, content, remote) && Payload(log) == content
    && log[|log| - 1].kind == Commit && |log| >= 2
    && |replies| + 1 == |log| && Acknowledged(log, replies)
  }

  lemma {:induction false} TiledFacts(log: seq<Write>, content: Bytes, remote: nat)
    requires Tiled(log, content, remote)
    ensures |log| > 0 && |Payload(log)| <= |content| && Payload(log) == content[..|Payload(log)|]
  {
  }

  lemma {:induction false} Sliced(content: Bytes, a: nat, b: nat)
    requires a < b <= |content|
    ensures content[..a] + content[a..b] == content[..b] <= content && content[a..b] != []
    ensures b == |content| ==> content[a..b] == content[a..] && content[..b] == content
  {
  }

  lemma {:induction false} TiledNext(log: seq<Write>, w: Write, content: Bytes, remote: nat)
    requires Tiled(log, content, remote) && log[|log| - 1].kind != Commit
    requires w.offset == remote + |Payload(log)| && w.data != [] && (w.kind == Plain || w.kind == Commit)
    requires w.kind == Commit ==> w.total == remote + |content|
    requires Payload(log) + w.data <= content
    ensures Tiled(log + [w], content, remote)
  {
    hide Payload;
    PayloadSnoc(log, w);
    var log' := log + [w];
    forall i | 0 <= i < |log'| ensures Placed(log'[i], remote + |Payload(log'[..i])|, remote + |content|) {
      assert log'[..i] == log[..i];
      if i == |log| { assert log[..i] == log; } else { assert log'[i] == log[i]; }
    }
  }

  lemma {:induction false} AcknowledgedNext(log: seq<Write>, w: Write, replies: seq<Reply>, reply: Reply)
    requires Acknowledged(log, replies) && |replies| + 1 == |log| && reply.Acked?
    requires w.groups == reply.groups <= log[|log| - 1].groups
    ensures Acknowledged(log + [w], replies + [reply])
  {
  }

  /**
   `session::write_data` with a chunk size, run against any replies: it ends, and unless some write
   failed it has sent exactly the content.  It has sent one command more than it got positive replies; it is
   done exactly when the commands cover the content, and otherwise the next reply is missing or an error.
   */
  method WriteData(file: Bytes, remote: nat, chunk: nat, to: set<GroupId>, script: seq<Reply>)
    returns (log: seq<Write>, done: bool, ghost replies: seq<Reply>)
    ensures |file| <= chunk || chunk == 0 ==> done && log == [Write(Whole, remote, file, 0, to)]
    ensures 0 < chunk < |file| ==> Tiled(log, file, remote) && Acknowledged(log, replies)
    ensures 0 < chunk < |file| && done ==> Finished(log, file, remote, replies)
    ensures 0 < chunk < |file| && !done ==> log[|log| - 1].kind != Commit
    ensures 0 < chunk < |file| ==> Followed(log, script, to) && (done <==> |file| <= |log| * chunk)
    ensures 0 < chunk < |file| ==> (|log| - 1) * chunk < |file| && FullChunks(log, chunk)
    ensures 0 < chunk < |file| && !done ==> |log| - 1 == |script| || script[|log| - 1].Failed?
  {
    hide Followed, Acknowledged, Tiled;
    replies := [];
    if |file| <= chunk || chunk == 0 {
      return [Write(Whole, remote, file, 0, to)], true, [];
    }
    var h := new ChunkHandler(file, remote, chunk, to);
    FollowedFirst(h.log, script, to);
    var i := 0;
    done := false;
    while !done
      invariant done ==> Finished(h.log, file, remote, replies)
      invariant !done ==> h.Valid(replies)
      invariant h.content == file && h.remoteOffset == remote && h.chunkSize == chunk
      invariant |h.log| == i + 1 && i <= |script| && Followed(h.log, script, to)
      invariant !done ==> h.log[i].groups == h.groups
      invariant done ==> i * chunk < |file| <= (i + 1) * chunk && FullChunks(h.log, chunk)
      decreases !done, |file| - h.localOffset
    {
      if i >= |script| || script[i].Failed? {
        assert i * chunk + chunk == (i + 1) * chunk;
        break;
      }
      var reply := Acked(script[i].groups * h.groups);
      ghost var sent := h.log;
      done := h.WriteNext(reply, replies);
      FollowedNext(sent, script, to, h.log[i + 1]);
      assert h.log == sent + [h.log[i + 1]];
      replies := replies + [reply];
      i := i + 1;
    }
    log := h.log;
  }
}
