/**
 Where index tables live: the shard of an object and the id of the table of an
 index in a shard.
 */
module IndexShards {
  import opened Basics

  const TWO32: nat := 0x1_0000_0000

  /** The number that an id spells, most significant byte first. */
  function BigEndian(id: seq<Byte>): nat {
    if id == [] then 0 else BigEndian(id[..|id| - 1]) * 256 + id[|id| - 1]
  }

  const INT_MAX := 0x7fff_ffff

  /** The value the loop computes at byte `i` before it reduces it. */
  function Unreduced(id: seq<Byte>, count: int, i: nat): int
    requires count > 0 && i < |id|
  {
    BigEndian(id[..i]) % count * 256 + id[i]
  }

  /** Every value the loop computes fits an `int`. */
  ghost predicate FitsInt(id: seq<Byte>, count: int)
    requires count > 0
  {
    forall i :: 0 <= i < |id| ==> Unreduced(id, count, i) <= INT_MAX
  }

  /**
   `dnet_indexes_get_shard_id`: the id, read as a number, modulo the count, unless a value leaves the range
   of an `int` on the way.
   */
  method ShardId(id: seq<Byte>, count: int) returns (r: Option<int>)
    requires 0 < count <= INT_MAX
    ensures r.Some? <==> FitsInt(id, count)
    ensures r.Some? ==> r.value == BigEndian(id) % count
  {
    var result := 0;
    var i := 0;
    while i < |id|
      invariant 0 <= i <= |id| && 0 <= result < count && result == BigEndian(id[..i]) % count
      invariant forall j :: 0 <= j < i ==> Unreduced(id, count, j) <= INT_MAX
    {
      assert id[..i + 1][..i] == id[..i];
      if result * 256 + id[i] > INT_MAX {
        assert Unreduced(id, count, i) > INT_MAX;
        return None;
      }
      ModStep(BigEndian(id[..i]), id[i], count);
      result := (result * 256 + id[i]) % count;
      i := i + 1;
    }
    assert id[..i] == id;
    r := Some(result);
  }

  /** Which never happens with up to 2^23 shards, ... */
  lemma {:induction false} FewShardsFit(id: seq<Byte>, count: int)
    requires 0 < count <= 0x80_0000
    ensures FitsInt(id, count)
  {
  }

  /** The `n` low bytes of a number, most significant first. */
  function Digits(v: nat, n: nat): (r: seq<Byte>)
    ensures |r| == n
  {
    if n == 0 then [] else Digits(v / 256, n - 1) + [v % 256]
  }

  /** `n` bytes are enough for the number. */
  predicate Enough(v: nat, n: nat) {
    if n == 0 then v == 0 else Enough(v / 256, n - 1)
  }

  lemma {:induction false} DigitsSpell(v: nat, n: nat)
    requires Enough(v, n)
    ensures BigEndian(Digits(v, n)) == v
  {
    if n > 0 {
      DigitsSpell(v / 256, n - 1);
      assert Digits(v, n)[..n - 1] == Digits(v / 256, n - 1);
    }
  }

  lemma {:induction false} EnoughForZero(n: nat)
    ensures Enough(0, n)
  {
    if n > 0 { EnoughForZero(n - 1); }
  }

  /** A number below 2^32 needs no more than four bytes. */
  lemma {:induction false} EnoughBytes(v: nat, n: nat)
    requires v < TWO32 && n >= 4
    ensures Enough(v, n)
  {
    EnoughForZero(n - 4);
    assert v / 256 / 256 / 256 / 256 == 0;
    assert Enough(v / 256 / 256 / 256, n - 3);
    assert Enough(v / 256 / 256, n - 2);
    assert Enough(v / 256, n - 1);
  }

  lemma {:induction false} ModSmall(v: nat, n: int)
    requires v < n
    ensures v % n == v
  {
  }

  /** ... and happens for some id of any length above four with any larger count. */
  lemma {:induction false} ManyShardsOverflow(count: int, n: nat)
    requires 0x80_0000 < count <= INT_MAX && n >= 4
    ensures exists id: seq<Byte> :: |id| == n + 1 && !FitsInt(id, count)
  {
    hide Digits, Enough, BigEndian;
    var v := count - 1;
    var high := Digits(v, n);
    var id := high + [255];
    EnoughBytes(v, n);
    DigitsSpell(v, n);
    assert id[..n] == high && id[n] == 255;
    ModSmall(v, count);
    assert Unreduced(id, count, n) == v * 256 + 255 > INT_MAX;
    assert |id| == n + 1 && !FitsInt(id, count);
  }

  lemma {:induction false} ModStep(v: nat, b: nat, n: int)
    requires n > 0
    ensures (v % n * 256 + b) % n == (v * 256 + b) % n
  {
    var q, r := v / n, v % n;
    assert v == n * q + r;
    assert v * 256 + b == n * (q * 256) + (r * 256 + b) by {
      assert (n * q + r) * 256 == n * q * 256 + r * 256;
      assert n * q * 256 == n * (q * 256);
    }
    ModMultiple(q * 256, r * 256 + b, n);
  }

  lemma {:induction false} ModMultiple(q: nat, r: nat, n: int)
    requires n > 0
    ensures (n * q + r) % n == r % n
  {
    var a, b := r / n, r % n;
    assert r == n * a + b;
    assert n * q + r == n * (q + a) + b by { assert n * (q + a) == n * q + n * a; }
    DivUnique(n * q + r, q + a, b, n);
  }

  lemma {:induction false} DivUnique(x: nat, q: nat, r: nat, n: int)
    requires n > 0 && x == n * q + r && r < n
    ensures x / n == q && x % n == r
  {
    var q', r' := x / n, x % n;
    assert x == n * q' + r';
    if q' < q {
      assert n * (q - q') == r' - r by { assert n * (q - q') == n * q - n * q'; }
      assert n * (q - q') >= n by { Scale(n, q - q'); }
    } else if q' > q {
      assert n * (q' - q) == r - r' by { assert n * (q' - q) == n * q' - n * q; }
      assert n * (q' - q) >= n by { Scale(n, q' - q); }
    }
  }

  lemma {:induction false} Scale(n: nat, k: nat)
    requires k >= 1
    ensures n * k >= n
  {
  }

  /** The leading word of a table id: the shard's share of the 32-bit range. */
  function Prefix(shard: nat, count: nat): nat
    requires count > 0
  {
    TWO32 * shard / count
  }

  /** The word is the whole part of the share: no smaller and no larger word fits. */
  lemma {:induction false} PrefixShare(s: nat, n: nat, p: nat)
    requires n > 0
    ensures p == Prefix(s, n) <==> n * p <= TWO32 * s < n * (p + 1)
  {
    var a := TWO32 * s;
    var q := a / n;
    assert a == n * q + a % n;
    assert n * (q + 1) == n * q + n;
    if n * p <= a < n * (p + 1) {
      DivAtLeast(a, p, n);
      DivBelow(a, p + 1, n);
    }
  }

  /** The words of different shards differ: they grow strictly with the shard and fit 32 bits. */
  lemma {:induction false} PrefixGrows(s: nat, s': nat, n: nat)
    requires s < s' < n <= TWO32
    ensures Prefix(s, n) < Prefix(s', n) < TWO32
  {
    var a, b := TWO32 * s, TWO32 * s';
    assert b >= a + n by { assert TWO32 * (s' - s) == b - a; Scale(TWO32, s' - s); }
    var q := a / n;
    assert a == n * q + a % n;
    DivAtLeast(b, q + 1, n);
    assert b < TWO32 * n;
    DivBelow(b, TWO32, n);
  }

  lemma {:induction false} DivAtLeast(x: nat, q: nat, n: nat)
    requires n > 0 && x >= n * q
    ensures x / n >= q
  {
    var q' := x / n;
    assert x == n * q' + x % n;
    if q' < q {
      assert n * (q - q') == n * q - n * q';
      Scale(n, q - q');
    }
  }

  lemma {:induction false} DivBelow(x: nat, q: nat, n: nat)
    requires n > 0 && x < n * q
    ensures x / n < q
  {
  }

  /** A table id: the leading word, zeros, and the second half of the hashed index id. */
  datatype TableId = TableId(prefix: nat, tail: nat)

  function TableOf(index: nat, shard: nat, count: nat, hash: nat -> nat): TableId
    requires count > 0
  {
    TableId(Prefix(shard, count), hash(index))
  }

  ghost predicate Injective(hash: nat -> nat) {
    forall a, b :: hash(a) == hash(b) ==> a == b
  }

  /** Tables of different indexes or shards have different ids. */
  lemma {:induction false} TablesApart(i: nat, s: nat, i': nat, s': nat, n: nat, hash: nat -> nat)
    requires Injective(hash) && s < n <= TWO32 && s' < n && TableOf(i, s, n, hash) == TableOf(i', s', n, hash)
    ensures i == i' && s == s'
  {
    if s < s' { PrefixGrows(s, s', n); }
    if s' < s { PrefixGrows(s', s, n); }
  }
}
