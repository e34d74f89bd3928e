/**
 The difference of two sorted iterator containers, from which recovery learns
 which records the left side has to fetch from the right side.
 */
module RecoveryDiff {
  import opened Basics

  /** A record; `rest` stands for the fields that do not take part in the order. */
  datatype Rec = Rec(key: nat, tsec: nat, tnsec: nat, size: nat, rest: nat)

  type Container = seq<Rec>

  function Sign(a: nat, b: nat): int {
    if a < b then -1 else if a > b then 1 else 0
  }

  function TimeCmp(a: Rec, b: Rec): int {
    if a.tsec != b.tsec then Sign(a.tsec, b.tsec) else Sign(a.tnsec, b.tnsec)
  }

  /** By key, then the newer first, then the larger first. */
  function Cmp(a: Rec, b: Rec): int {
    if a.key != b.key then Sign(a.key, b.key)
    else if TimeCmp(b, a) != 0 then TimeCmp(b, a)
    else Sign(b.size, a.size)
  }

  /** Newer, or of the same time and larger, or alike in both. */
  predicate AtLeast(a: Rec, b: Rec) {
    || a.tsec > b.tsec
    || (a.tsec == b.tsec && a.tnsec > b.tnsec)
    || (a.tsec == b.tsec && a.tnsec == b.tnsec && a.size >= b.size)
  }

  /** The order of a sorted container: keys ascend, and the records of a key descend in time and size. */
  predicate Before(a: Rec, b: Rec) {
    a.key < b.key || (a.key == b.key && AtLeast(a, b))
  }

  ghost predicate Sorted(s: Container) {
    forall i, j :: 0 <= i < j < |s| ==> Before(s[i], s[j])
  }

  /** The comparison function decides that order. */
  lemma {:induction false} CmpIs(a: Rec, b: Rec)
    ensures Cmp(a, b) <= 0 <==> Before(a, b)
    ensures Cmp(a, b) == 0 <==> Before(a, b) && Before(b, a)
    ensures Cmp(a, b) == -Cmp(b, a)
  {
  }

  /** The first record of a key. */
  function Newest(s: Container, key: nat): Option<Rec> {
    if s == [] then None
    else if s[0].key == key then Some(s[0])
    else Newest(s[1..], key)
  }

  lemma {:induction false} NewestAt(s: Container, i: nat)
    requires i < |s| && forall j :: 0 <= j < i ==> s[j].key != s[i].key
    ensures Newest(s, s[i].key) == Some(s[i])
  {
    if i > 0 { NewestAt(s[1..], i - 1); }
  }

  lemma {:induction false} NewestNone(s: Container, key: nat)
    requires forall j :: 0 <= j < |s| ==> s[j].key != key
    ensures Newest(s, key) == None
  {
    if s != [] { NewestNone(s[1..], key); }
  }

  /** In a sorted container the first record of a key is the newest, then largest one. */
  lemma {:induction false} NewestBest(s: Container, key: nat)
    requires Sorted(s)
    ensures match Newest(s, key)
            case None => forall x :: x in s ==> x.key != key
            case Some(r) => r in s && r.key == key && forall x :: x in s && x.key == key ==> AtLeast(r, x)
  {
    if s != [] {
      assert s == [s[0]] + s[1..];
      if s[0].key != key {
        NewestBest(s[1..], key);
      } else {
        forall x | x in s && x.key == key ensures AtLeast(s[0], x) {
          var j :| 0 <= j < |s| && s[j] == x;
        }
      }
    }
  }

  /** No record of the left side has the key with at least this time and size. */
  ghost predicate Needs(left: Container, r: Rec) {
    forall l :: l in left && l.key == r.key ==> !AtLeast(l, r)
  }

  /** The records of a right container, up to position `n`, that the left side needs. */
  ghost predicate DiffUpTo(left: Container, right: Container, n: nat, diff: Container)
    requires n <= |right|
  {
    && (forall i, j :: 0 <= i < j < |diff| ==> diff[i].key < diff[j].key)
    && (forall d :: d in diff <==> d in right[..n] && Newest(right, d.key) == Some(d) && Needs(left, d))
  }

  /** A position at which a new key starts, or the end. */
  predicate Boundary(s: Container, i: nat) {
    i <= |s| && (0 < i < |s| ==> s[i - 1].key < s[i].key)
  }

  /** Moves past the records with the key at `offset`. */
  method SkipEqualKeys(resp: Container, offset: nat) returns (r: nat)
    requires Sorted(resp) && offset < |resp|
    ensures offset < r <= |resp| && Boundary(resp, r)
    ensures forall j :: offset <= j < r ==> resp[j].key == resp[offset].key
  {
    r := offset;
    var next := r + 1;
    while next < |resp|
      invariant offset <= r && next == r + 1 <= |resp|
      invariant forall j :: offset <= j <= r ==> resp[j].key == resp[offset].key
    {
      if resp[r].key != resp[next].key {
        assert Before(resp[r], resp[next]);
        break;
      }
      r := r + 1;
      next := next + 1;
    }
    r := r + 1;
  }

  lemma {:induction false} KeysOrdered(s: Container, i: nat, j: nat)
    requires Sorted(s) && i <= j < |s|
    ensures s[i].key <= s[j].key
  {
  }

  /** Keys before a boundary are smaller. */
  lemma {:induction false} BeforeBoundary(s: Container, i: nat, j: nat)
    requires Sorted(s) && Boundary(s, i) && j < i < |s|
    ensures s[j].key < s[i].key
  {
  }

  /** What the left position tells about the record at the right position. */
  lemma {:induction false} NeedsHere(left: Container, l: nat, r: Rec)
    requires Sorted(left) && Boundary(left, l) && forall j :: 0 <= j < l ==> left[j].key < r.key
    ensures l == |left| || left[l].key > r.key ==> Needs(left, r)
    ensures l < |left| && left[l].key == r.key ==> (Needs(left, r) <==> Cmp(left[l], r) > 0)
  {
    forall j | l <= j < |left| ensures left[l].key <= left[j].key { KeysOrdered(left, l, j); }
    if l < |left| && left[l].key == r.key {
      CmpIs(left[l], r);
      assert left[l] in left;
      NewestAt(left, l);
      NewestBest(left, r.key);
    }
  }

  /** The keys already in the difference are smaller than the key at the right position. */
  lemma {:induction false} DiffBelow(left: Container, right: Container, n: nat, diff: Container, d: Rec)
    requires Sorted(right) && n < |right| && Boundary(right, n) && DiffUpTo(left, right, n, diff) && d in diff
    ensures d.key < right[n].key
  {
  }

  lemma {:induction false} FirstOfKey(right: Container, n: nat)
    requires Sorted(right) && n < |right| && Boundary(right, n)
    ensures Newest(right, right[n].key) == Some(right[n])
  {
    forall j | 0 <= j < n ensures right[j].key != right[n].key { BeforeBoundary(right, n, j); }
    NewestAt(right, n);
  }

  /** Passing a group of equal keys, with its first record added exactly when it is needed. */
  lemma {:induction false} PassGroup(left: Container, right: Container, n: nat, n': nat, diff: Container,
                                     diff': Container)
    requires Sorted(right) && n < n' <= |right| && Boundary(right, n) && DiffUpTo(left, right, n, diff)
    requires forall j :: n <= j < n' ==> right[j].key == right[n].key
    requires diff' == if Needs(left, right[n]) then diff + [right[n]] else diff
    ensures DiffUpTo(left, right, n', diff')
  {
    FirstOfKey(right, n);
    forall d ensures d in diff' <==> d in right[..n'] && Newest(right, d.key) == Some(d) && Needs(left, d) {
      if d in right[..n'] {
        var j :| 0 <= j < n' && right[j] == d;
        if j < n { assert d in right[..n]; }
      }
      if d in right[..n] {
        var j :| 0 <= j < n && right[j] == d;
        assert right[..n'][j] == d;
        BeforeBoundary(right, n, j);
      }
      if d == right[n] { assert right[..n'][n] == d; }
    }
    forall i | 0 <= i < |diff| ensures diff[i].key < right[n].key {
      DiffBelow(left, right, n, diff, diff[i]);
    }
  }

  /** The right side has a key beyond every key of the left side. */
  predicate Outruns(right: Container, left: Container) {
    right != [] && (left == [] || left[|left| - 1].key < right[|right| - 1].key)
  }

  /**
   `dnet_iterator_response_container_diff`, with its own assertions on the offsets.  The comparison of the
   current records comes before the test of the left offset; `pastEnd` tells whether it ever reads a
   record behind the left container.  The result does not depend on what it reads there.
   */
  method Diff(left: Container, right: Container) returns (diff: Container, pastEnd: bool)
    requires Sorted(left) && Sorted(right)
    ensures pastEnd <==> Outruns(right, left)
    ensures DiffUpTo(left, right, |right|, diff)
    ensures |diff| <= |right|
  {
    hide DiffUpTo, Newest, Needs, Cmp, AtLeast;
    var l: nat, r: nat := 0, 0;
    diff, pastEnd := [], false;
    DiffNone(left, right);
    while r < |right|
      invariant l <= |left| && r <= |right| && |diff| <= r
      invariant pastEnd ==> Outruns(right, left)
      invariant !pastEnd && r == |right| ==> !Outruns(right, left)
      invariant Boundary(left, l) && Boundary(right, r)
      invariant r < |right| ==> forall j :: 0 <= j < l ==> left[j].key < right[r].key
      invariant DiffUpTo(left, right, r, diff)
      decreases |right| - r + |left| - l
    {
      NeedsHere(left, l, right[r]);
      ghost var r0, diff0 := r, diff;
      pastEnd := pastEnd || l == |left|;
      if l < |left| { CmpIs(left[l], right[r]); }
      if l < |left| && Cmp(left[l], right[r]) <= 0 {
        var same := left[l].key == right[r].key;
        l := SkipEqualKeys(left, l);
        if same {
          r := SkipEqualKeys(right, r);
          PassGroup(left, right, r0, r, diff0, diff);
        }
      } else {
        diff := diff + [right[r]];
        var same := l < |left| && left[l].key == right[r].key;
        r := SkipEqualKeys(right, r);
        PassGroup(left, right, r0, r, diff0, diff);
        if same {
          l := SkipEqualKeys(left, l);
        }
      }
      assert l <= |left| && |diff| <= |right|;
    }
    assert r == |right|;
  }

  lemma {:induction false} DiffNone(left: Container, right: Container)
    ensures DiffUpTo(left, right, 0, [])
  {
  }

  /** Against an empty left container the very first comparison reads behind it. */
  method ReadBehind(r: Rec) returns (diff: Container, pastEnd: bool)
    ensures pastEnd && r in diff
  {
    var right := [r];
    assert right[..|right|] == right;
    diff, pastEnd := Diff([], right);
  }

  // --------------------------------------------------------------------------
  // Recovery
  // --------------------------------------------------------------------------

  /** `m` is the left container after the difference was merged into it. */
  ghost predicate Merged(left: Container, diff: Container, m: Container) {
    Sorted(m) && forall x :: x in m <==> x in left || x in diff
  }

  /**
   Merging the difference gives, per key, the newest and then largest record of both sides: a key has one
   exactly if either side has it, and it is at least every record of either side.
   */
  lemma {:induction false} MergedNewest(left: Container, right: Container, diff: Container, m: Container, key: nat)
    requires Sorted(left) && Sorted(right) && DiffUpTo(left, right, |right|, diff) && Merged(left, diff, m)
    ensures Newest(m, key).None? <==> forall y :: y in left || y in right ==> y.key != key
    ensures Newest(m, key).Some? ==>
              && (Newest(m, key).value in left || Newest(m, key).value in right) && Newest(m, key).value.key == key
              && forall y :: (y in left || y in right) && y.key == key ==> AtLeast(Newest(m, key).value, y)
  {
    hide Newest, Sorted;
    NewestBest(m, key);
    assert right[..|right|] == right;
    forall y | y in right && y.key == key
      ensures Newest(m, key).Some? && AtLeast(Newest(m, key).value, y)
    {
      Covered(left, right, diff, m, y);
    }
  }

  /** Every record of the right side is matched after the merge. */
  lemma {:induction false} Covered(left: Container, right: Container, diff: Container, m: Container, y: Rec)
    requires Sorted(left) && Sorted(right) && DiffUpTo(left, right, |right|, diff) && Merged(left, diff, m)
    requires y in right
    ensures Newest(m, y.key).Some? && AtLeast(Newest(m, y.key).value, y)
  {
    hide Newest, Sorted;
    NewestBest(m, y.key);
    NewestBest(right, y.key);
    var first := Newest(right, y.key).value;
    assert right[..|right|] == right;
    if Needs(left, first) {
      assert first in diff;
    } else {
      var l :| l in left && l.key == first.key && AtLeast(l, first);
      assert l in m;
    }
  }

  /** After the merge there is nothing left to recover. */
  lemma {:induction false} SecondDiffEmpty(left: Container, right: Container, diff: Container, m: Container,
                                           again: Container)
    requires Sorted(left) && Sorted(right) && DiffUpTo(left, right, |right|, diff) && Merged(left, diff, m)
    requires DiffUpTo(m, right, |right|, again)
    ensures again == []
  {
    if again != [] {
      var d := again[0];
      assert d in again;
      assert right[..|right|] == right;
      Covered(left, right, diff, m, d);
      NewestBest(m, d.key);
    }
  }
}
