/**
 Framing on the wire: a sender that resumes partial sends request by request, and
 a receiver that resumes partial receives piece by piece.  How many bytes each
 socket call moves is an input, so every statement is about every splitting.
 */
module Wire {
  import opened Basics

  /** `sizeof(struct dnet_cmd)`; its last eight bytes hold the payload size. */
  const HEADER := 104
  /** `sizeof(struct dnet_io_req)`, which precedes the header in a receive buffer. */
  const REQ := 80

  function LittleEndian(b: Bytes): nat {
    if b == [] then 0 else b[0] + 256 * LittleEndian(b[1..])
  }

  function PayloadSize(header: Bytes): nat
    requires |header| == HEADER
  {
    LittleEndian(header[HEADER - 8..])
  }

  /** The size field is the last eight bytes of the header, the least significant first. */
  lemma {:induction false} SizeField(header: Bytes)
    requires |header| == HEADER
    ensures var b := header[HEADER - 8..];
            PayloadSize(header) == b[0] as int + b[1] as int * 0x100 + b[2] as int * 0x1_0000 + b[3] as int * 0x100_0000
              + b[4] as int * 0x1_0000_0000 + b[5] as int * 0x100_0000_0000
              + b[6] as int * 0x1_0000_0000_0000 + b[7] as int * 0x100_0000_0000_0000
  {
    var b := header[HEADER - 8..];
    FourBytes(b[4..]);
    FourBytes(b[..4]);
    LittleConcat(b[..4], b[4..]);
    assert b == b[..4] + b[4..];
  }

  function Power256(n: nat): nat {
    if n == 0 then 1 else 256 * Power256(n - 1)
  }

  lemma {:induction false} LittleConcat(a: Bytes, b: Bytes)
    ensures LittleEndian(a + b) == LittleEndian(a) + Power256(|a|) * LittleEndian(b)
  {
    if a == [] {
      assert a + b == b;
    } else {
      LittleConcat(a[1..], b);
      assert (a + b)[1..] == a[1..] + b;
      assert 256 * (Power256(|a| - 1) * LittleEndian(b)) == Power256(|a|) * LittleEndian(b);
    }
  }

  lemma {:induction false} FourBytes(b: Bytes)
    requires |b| == 4
    ensures LittleEndian(b) == b[0] as int + b[1] as int * 0x100 + b[2] as int * 0x1_0000 + b[3] as int * 0x100_0000
    ensures Power256(4) == 0x1_0000_0000
  {
    assert LittleEndian(b[1..][1..][1..]) == b[3] by { assert b[1..][1..][1..][1..] == []; }
    assert LittleEndian(b[1..][1..]) == b[2] as int + b[3] as int * 256;
    assert LittleEndian(b[1..]) == b[1] as int + (b[2] as int + b[3] as int * 256) * 256;
    assert Power256(2) == 0x1_0000;
  }

  datatype Message = Message(header: Bytes, payload: Bytes)

  predicate WellFormed(m: Message) {
    |m.header| == HEADER && PayloadSize(m.header) == |m.payload|
  }

  function Flat(m: Message): Bytes {
    m.header + m.payload
  }

  function Stream(ms: seq<Message>): Bytes {
    if ms == [] then [] else Flat(ms[0]) + Stream(ms[1..])
  }

  lemma {:induction false} StreamConcat(a: seq<Message>, b: seq<Message>)
    ensures Stream(a + b) == Stream(a) + Stream(b)
  {
    if a == [] {
      assert a + b == b;
    } else {
      StreamConcat(a[1..], b);
      assert (a + b)[1..] == a[1..] + b;
      Associate(Flat(a[0]), Stream(a[1..]), Stream(b));
    }
  }

  lemma {:induction false} Associate(a: Bytes, b: Bytes, c: Bytes)
    ensures a + (b + c) == (a + b) + c
  {
  }

  lemma {:induction false} StreamOne(m: Message)
    ensures Stream([m]) == Flat(m)
  {
  }

  ghost predicate AllWellFormed(ms: seq<Message>) {
    forall i :: 0 <= i < |ms| ==> WellFormed(ms[i])
  }

  /** Bytes that are not yet a whole message. */
  predicate Incomplete(p: Bytes) {
    |p| < HEADER || |p| < HEADER + PayloadSize(p[..HEADER])
  }

  /** Two streams that agree so far start with the same message. */
  lemma {:induction false} SameFirst(m: Message, rest: Bytes, m': Message, rest': Bytes)
    requires WellFormed(m) && WellFormed(m') && Flat(m) + rest <= Flat(m') + rest'
    ensures m == m' && rest <= rest'
  {
    var a, b := Flat(m) + rest, Flat(m') + rest';
    assert a[..HEADER] == m.header;
    assert b[..HEADER] == m'.header;
    assert a[..HEADER] == b[..HEADER];
    var n := HEADER + |m.payload|;
    assert a[HEADER..n] == m.payload;
    assert b[HEADER..n] == m'.payload;
    assert a[n..] == rest;
    assert b[n..] == rest';
  }

  /** What a receiver of a prefix of the stream can make of it: the first messages sent, and nothing else. */
  lemma {:induction false} Deciphered(got: seq<Message>, partial: Bytes, sent: seq<Message>)
    requires AllWellFormed(got) && AllWellFormed(sent)
    requires Stream(got) + partial <= Stream(sent)
    ensures got <= sent
    ensures Incomplete(partial) && Stream(got) + partial == Stream(sent) ==> got == sent && partial == []
  {
    if got == [] {
      assert Stream(got) + partial == partial;
      if sent != [] && partial == Stream(sent) {
        var m := sent[0];
        assert partial[..HEADER] == m.header;
      }
    } else if sent == [] {
      assert false;
    } else {
      Associate(Flat(got[0]), Stream(got[1..]), partial);
      SameFirst(got[0], Stream(got[1..]) + partial, sent[0], Stream(sent[1..]));
      Deciphered(got[1..], partial, sent[1..]);
      assert got == [got[0]] + got[1..] && sent == [sent[0]] + sent[1..];
    }
  }
}
