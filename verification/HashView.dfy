/**
  The abstract state of a chained hash table: one sequence of entries per
  bucket, the inline bucket head first and then its overflow chain.  This
  module holds the counting arguments; HashTables.dfy holds the linked
  structure that refines it.
*/
module HashView {

  type Buckets<T> = seq<seq<T>>

  /** Two entries match when they are the same pointer or compare equal. */
  predicate Match<T(==)>(cmp: (T, T) -> bool, x: T, y: T) {
    x == y || cmp(x, y)
  }

  /** What hash_initialize demands of the two functions it is given: the hasher
      stays in range, the comparator is an equivalence, and entries that compare
      equal hash alike at every table size. */
  ghost predicate GoodHash<T(!new)>(hasher: (T, nat) -> nat, cmp: (T, T) -> bool) {
    && (forall x, n: nat | n > 0 :: hasher(x, n) < n)
    && (forall x, y, n: nat | cmp(x, y) :: hasher(x, n) == hasher(y, n))
    && (forall x, y | cmp(x, y) :: cmp(y, x))
    && (forall x, y, z | Match(cmp, x, y) && Match(cmp, y, z) :: Match(cmp, x, z))
  }

  /** All entries of the table. */
  ghost function Elements<T>(v: Buckets<T>): multiset<T> {
    if v == [] then multiset{} else Elements(v[..|v|-1]) + multiset(v[|v|-1])
  }

  /** Number of non-empty buckets. */
  function Used<T>(v: Buckets<T>): nat {
    if v == [] then 0 else Used(v[..|v|-1]) + if v[|v|-1] == [] then 0 else 1
  }

  /** Number of entries. */
  function Total<T>(v: Buckets<T>): nat {
    if v == [] then 0 else Total(v[..|v|-1]) + |v[|v|-1]|
  }

  /** Overflow nodes needed by one bucket: every entry but the inline head. */
  function Spill<T>(s: seq<T>): nat {
    if s == [] then 0 else |s| - 1
  }

  /** Number of overflow nodes in use. */
  function Overflow<T>(v: Buckets<T>): nat {
    if v == [] then 0 else Overflow(v[..|v|-1]) + Spill(v[|v|-1])
  }

  /** Every entry sits in the bucket its hash selects. */
  ghost predicate Placed<T>(hasher: (T, nat) -> nat, v: Buckets<T>) {
    forall b, i {:trigger hasher(v[b][i], |v|)} | 0 <= b < |v| && 0 <= i < |v[b]| :: hasher(v[b][i], |v|) == b
  }

  /** No two stored entries match. */
  ghost predicate Distinct<T>(cmp: (T, T) -> bool, m: multiset<T>) {
    && (forall x | x in m :: m[x] == 1)
    && (forall x, y | x in m && y in m && Match(cmp, x, y) :: x == y)
  }

  /** The same buckets, each holding the same entries, chain order apart. */
  ghost predicate SameBuckets<T>(v: Buckets<T>, w: Buckets<T>) {
    |v| == |w| && forall b | 0 <= b < |v| :: multiset(v[b]) == multiset(w[b])
  }

  // ---------------------------------------------------------------------
  // Replacing one bucket

  lemma {:induction false} ReplaceBucket<T>(v: Buckets<T>, b: nat, s: seq<T>)
    requires b < |v|
    ensures Elements(v[b := s]) + multiset(v[b]) == Elements(v) + multiset(s)
    ensures Total(v[b := s]) + |v[b]| == Total(v) + |s|
    ensures Overflow(v[b := s]) + Spill(v[b]) == Overflow(v) + Spill(s)
    ensures Used(v[b := s]) + (if v[b] == [] then 0 else 1) == Used(v) + (if s == [] then 0 else 1)
  {
    var w := v[b := s];
    var last := |v| - 1;
    if b == last {
      assert w[..last] == v[..last];
    } else {
      assert w[..last] == v[..last][b := s];
      ReplaceBucket(v[..last], b, s);
      var m := multiset(v[last]);
      assert Elements(w) + multiset(v[b]) == (Elements(w[..last]) + multiset(v[b])) + m;
      assert Elements(v) + multiset(s) == (Elements(v[..last]) + multiset(s)) + m;
    }
  }

  lemma {:induction false} EmptyTable<T>(v: Buckets<T>)
    requires forall b | 0 <= b < |v| :: v[b] == []
    ensures Elements(v) == multiset{} && Total(v) == 0 && Overflow(v) == 0 && Used(v) == 0
  {
    if v != [] {
      EmptyTable(v[..|v|-1]);
    }
  }

  lemma {:induction false} HeadsOnly<T>(v: Buckets<T>)
    requires forall b | 0 <= b < |v| :: |v[b]| <= 1
    ensures Overflow(v) == 0
  {
    if v != [] {
      HeadsOnly(v[..|v|-1]);
    }
  }

  // ---------------------------------------------------------------------
  // Counting

  lemma {:induction false} EntriesAreHeadsPlusOverflow<T>(v: Buckets<T>)
    ensures Total(v) == Used(v) + Overflow(v)
    ensures |Elements(v)| == Total(v)
  {
    if v != [] {
      EntriesAreHeadsPlusOverflow(v[..|v|-1]);
    }
  }

  lemma {:induction false} ElementInBucket<T>(v: Buckets<T>, x: T) returns (b: nat, i: nat)
    requires x in Elements(v)
    ensures b < |v| && i < |v[b]| && v[b][i] == x
  {
    if x in v[|v|-1] {
      b := |v| - 1;
      i :| 0 <= i < |v[b]| && v[b][i] == x;
    } else {
      b, i := ElementInBucket(v[..|v|-1], x);
    }
  }

  lemma {:induction false} BucketInElements<T>(v: Buckets<T>, b: nat)
    requires b < |v|
    ensures multiset(v[b]) <= Elements(v)
  {
    if b < |v| - 1 {
      BucketInElements(v[..|v|-1], b);
    }
  }

  /** In a placed table an entry is found in its own bucket and nowhere else. */
  lemma {:induction false} PlacedMultiplicity<T>(hasher: (T, nat) -> nat, v: Buckets<T>, n: nat, x: T)
    requires |v| <= n && hasher(x, n) < n
    requires forall b, i | 0 <= b < |v| && 0 <= i < |v[b]| :: hasher(v[b][i], n) == b
    ensures Elements(v)[x] == if hasher(x, n) < |v| then multiset(v[hasher(x, n)])[x] else 0
  {
    if v != [] {
      var last := |v| - 1;
      PlacedMultiplicity(hasher, v[..last], n, x);
      if x in v[last] {
        var i :| 0 <= i < |v[last]| && v[last][i] == x;
        assert hasher(x, n) == last;
      }
    }
  }

  /** Placement makes the contents of every bucket a function of the contents of
      the table: fewer entries overall means fewer entries bucket by bucket. */
  lemma {:induction false} PlacedIsMonotone<T>(hasher: (T, nat) -> nat, v: Buckets<T>, w: Buckets<T>)
    requires |v| == |w| && Placed(hasher, v) && Placed(hasher, w)
    requires forall x | x in Elements(v) + Elements(w) :: hasher(x, |v|) < |v|
    requires Elements(v) <= Elements(w)
    ensures forall b | 0 <= b < |v| :: multiset(v[b]) <= multiset(w[b])
  {
    forall b | 0 <= b < |v|
      ensures multiset(v[b]) <= multiset(w[b])
    {
      forall x | x in v[b]
        ensures multiset(v[b])[x] <= multiset(w[b])[x]
      {
        BucketInElements(v, b);
        assert x in Elements(v);
        var i :| 0 <= i < |v[b]| && v[b][i] == x;
        assert hasher(x, |v|) == b;
        PlacedMultiplicity(hasher, v, |v|, x);
        PlacedMultiplicity(hasher, w, |w|, x);
      }
    }
  }

  lemma PlacedDetermines<T>(hasher: (T, nat) -> nat, v: Buckets<T>, w: Buckets<T>)
    requires |v| == |w| && Placed(hasher, v) && Placed(hasher, w)
    requires forall x | x in Elements(v) :: hasher(x, |v|) < |v|
    requires Elements(v) == Elements(w)
    ensures SameBuckets(v, w)
  {
    PlacedIsMonotone(hasher, v, w);
    PlacedIsMonotone(hasher, w, v);
    forall b | 0 <= b < |v|
      ensures multiset(v[b]) == multiset(w[b])
    {
      assert multiset(v[b]) <= multiset(w[b]) && multiset(w[b]) <= multiset(v[b]);
    }
  }

  lemma {:induction false} SpillIsMonotone<T>(v: Buckets<T>, w: Buckets<T>)
    requires |v| == |w|
    requires forall b | 0 <= b < |v| :: |v[b]| <= |w[b]|
    ensures Overflow(v) <= Overflow(w)
  {
    if v != [] {
      SpillIsMonotone(v[..|v|-1], w[..|w|-1]);
    }
  }

  lemma {:induction false} SameBucketsSameCounts<T>(v: Buckets<T>, w: Buckets<T>)
    requires SameBuckets(v, w)
    ensures Used(v) == Used(w) && Total(v) == Total(w) && Overflow(v) == Overflow(w)
  {
    if v != [] {
      var last := |v| - 1;
      assert |multiset(v[last])| == |v[last]| && |multiset(w[last])| == |w[last]|;
      SameBucketsSameCounts(v[..last], w[..last]);
    }
  }

  /** An entry goes into an empty bucket head, or right behind an occupied one. */
  function Put<T>(v: Buckets<T>, b: nat, x: T): Buckets<T>
    requires b < |v|
  {
    v[b := if v[b] == [] then [x] else [v[b][0], x] + v[b][1..]]
  }

  lemma PutEntry<T>(hasher: (T, nat) -> nat, v: Buckets<T>, x: T) returns (w: Buckets<T>)
    requires Placed(hasher, v) && hasher(x, |v|) < |v|
    ensures w == Put(v, hasher(x, |v|), x)
    ensures Placed(hasher, w) && Elements(w) == Elements(v) + multiset{x}
    ensures Overflow(w) == Overflow(v) + if v[hasher(x, |v|)] == [] then 0 else 1
    ensures Total(w) == Total(v) + 1
    ensures Used(w) == Used(v) + if v[hasher(x, |v|)] == [] then 1 else 0
  {
    var b := hasher(x, |v|);
    w := Put(v, b, x);
    if v[b] != [] {
      assert v[b] == [v[b][0]] + v[b][1..];
    }
    assert multiset(w[b]) == multiset(v[b]) + multiset{x};
    ReplaceBucket(v, b, w[b]);
    Cancel(Elements(w), Elements(v), multiset(v[b]), multiset(w[b]), multiset{x});
    PutIsPlaced(hasher, v, x);
  }

  lemma PutIsPlaced<T>(hasher: (T, nat) -> nat, v: Buckets<T>, x: T)
    requires Placed(hasher, v) && hasher(x, |v|) < |v|
    ensures Placed(hasher, Put(v, hasher(x, |v|), x))
  {
  }

  /** Entries gained by the table are the entries gained by the bucket. */
  lemma Cancel<T>(now: multiset<T>, before: multiset<T>, old_: multiset<T>, new_: multiset<T>, gained: multiset<T>)
    requires now + old_ == before + new_
    requires new_ == old_ + gained
    ensures now == before + gained
  {
    assert now == (now + old_) - old_;
    assert before + gained == (before + new_) - old_;
  }

  function Without<T>(s: seq<T>, i: nat): (r: seq<T>)
    requires i < |s|
    ensures |r| == |s| - 1
    ensures forall j | 0 <= j < |r| :: r[j] == s[if j < i then j else j + 1]
  {
    s[..i] + s[i+1..]
  }

  /** Entry i of bucket b leaves the table. */
  function Drop<T>(v: Buckets<T>, b: nat, i: nat): Buckets<T>
    requires b < |v| && i < |v[b]|
  {
    v[b := Without(v[b], i)]
  }

  lemma DropEntry<T>(hasher: (T, nat) -> nat, v: Buckets<T>, b: nat, i: nat)
    requires Placed(hasher, v) && b < |v| && i < |v[b]|
    ensures var w := Drop(v, b, i);
            && Placed(hasher, w) && Elements(v) == Elements(w) + multiset{v[b][i]}
            && Total(w) == Total(v) - 1 && Overflow(w) == Overflow(v) - (if |v[b]| > 1 then 1 else 0)
            && Used(w) == Used(v) - if w[b] == [] then 1 else 0
  {
    var w := Drop(v, b, i);
    assert v[b] == v[b][..i] + [v[b][i]] + v[b][i+1..];
    assert multiset(v[b]) == multiset(w[b]) + multiset{v[b][i]};
    ReplaceBucket(v, b, w[b]);
    Cancel(Elements(v), Elements(w), multiset(w[b]), multiset(v[b]), multiset{v[b][i]});
  }

  /** The overflow entries of bucket b leave the table; its head stays. */
  lemma KeepHead<T>(hasher: (T, nat) -> nat, v: Buckets<T>, b: nat)
    requires Placed(hasher, v) && b < |v| && v[b] != []
    ensures var w := v[b := v[b][..1]];
            && Placed(hasher, w) && Elements(v) == Elements(w) + multiset(v[b][1..])
            && Overflow(v) == Overflow(w) + |v[b]| - 1 && Used(w) == Used(v)
  {
    var w := v[b := v[b][..1]];
    assert v[b] == v[b][..1] + v[b][1..];
    ReplaceBucket(v, b, w[b]);
    Cancel(Elements(v), Elements(w), multiset(w[b]), multiset(v[b]), multiset(v[b][1..]));
  }

  /** A bucket with nothing but its head is emptied. */
  lemma TakeHead<T>(v: Buckets<T>, b: nat)
    requires b < |v| && |v[b]| == 1
    ensures Elements(v) == Elements(v[b := []]) + multiset(v[b])
    ensures Overflow(v) == Overflow(v[b := []])
  {
    ReplaceBucket(v, b, []);
    Cancel(Elements(v), Elements(v[b := []]), multiset([]), multiset(v[b]), multiset(v[b]));
  }

  /** A bucket is emptied, overflow entries first. */
  lemma EmptyBucket<T>(v: Buckets<T>, b: nat)
    requires b < |v| && v[b] != []
    ensures Elements(v) == Elements(v[b := []]) + multiset(v[b][1..] + v[b][..1])
    ensures Overflow(v) == Overflow(v[b := []]) + |v[b]| - 1
  {
    ReplaceBucket(v, b, []);
    assert v[b] == v[b][..1] + v[b][1..];
    Cancel(Elements(v), Elements(v[b := []]), multiset([]), multiset(v[b]), multiset(v[b]));
  }

  /** What moving entries from table w to table v keeps: no entry is lost or
      gained, and no overflow node is lost. */
  ghost predicate Conserved<T>(v0: Buckets<T>, w0: Buckets<T>, free0: nat, v1: Buckets<T>, w1: Buckets<T>, free1: nat) {
    && |v1| == |v0| && |w1| == |w0|
    && Elements(v1) + Elements(w1) == Elements(v0) + Elements(w0)
    && Overflow(v1) + Overflow(w1) + free1 >= Overflow(v0) + Overflow(w0) + free0
  }

  lemma MoveConserves<T>(v0: Buckets<T>, w0: Buckets<T>, free0: nat,
                         v1: Buckets<T>, w1: Buckets<T>, free1: nat, moved: multiset<T>)
    requires |v1| == |v0| && |w1| == |w0|
    requires Elements(v1) == Elements(v0) + moved && Elements(w0) == Elements(w1) + moved
    requires Overflow(v1) + Overflow(w1) + free1 >= Overflow(v0) + Overflow(w0) + free0
    ensures Conserved(v0, w0, free0, v1, w1, free1)
  {
  }

  /** The counting argument behind the two undo passes of hash_rehash.
      `orig` is the table before the rehash and `cur` the part of it that is back
      in place.  As long as the overflow nodes in `cur` and the free list
      together have not fallen below the overflow count of `orig`, an entry that
      still has to go back behind an occupied bucket head finds a node on the
      free list. */
  lemma UndoFindsFreeNode<T>(hasher: (T, nat) -> nat, orig: Buckets<T>, cur: Buckets<T>, x: T, free: nat)
    requires |cur| == |orig| > 0 && Placed(hasher, orig) && Placed(hasher, cur)
    requires forall y | y in Elements(orig) :: hasher(y, |orig|) < |orig|
    requires Elements(cur) + multiset{x} <= Elements(orig)
    requires Overflow(cur) + free >= Overflow(orig)
    requires hasher(x, |orig|) < |orig| && cur[hasher(x, |orig|)] != []
    ensures free > 0
  {
    var b := hasher(x, |orig|);
    var next := PutEntry(hasher, cur, x);
    PlacedIsMonotone(hasher, next, orig);
    forall c | 0 <= c < |next|
      ensures |next[c]| <= |orig[c]|
    {
      SubMultisetSize(multiset(next[c]), multiset(orig[c]));
    }
    SpillIsMonotone(next, orig);
  }

  lemma AllMoved<T>(empty: Buckets<T>, orig: Buckets<T>, free0: nat, v: Buckets<T>, rest: Buckets<T>, free1: nat)
    requires Conserved(empty, orig, free0, v, rest, free1)
    requires forall b | 0 <= b < |empty| :: empty[b] == []
    requires forall b | 0 <= b < |rest| :: rest[b] == []
    ensures Elements(v) == Elements(orig)
  {
    EmptyTable(empty);
    EmptyTable(rest);
    assert Elements(v) == Elements(v) + Elements(rest);
  }

  /** During the undo passes the two tables together hold the entries of the table
      before the rehash, on at least as many nodes. */
  ghost predicate Undoing<T>(orig: Buckets<T>, free0: nat, t: Buckets<T>, n: Buckets<T>, free: nat) {
    && |t| == |orig| && Elements(t) + Elements(n) == Elements(orig)
    && Overflow(t) + Overflow(n) + free >= Overflow(orig) + free0
  }

  /** The forward pass and the first undo pass of hash_rehash, seen together. */
  lemma UndoStarts<T>(orig: Buckets<T>, free0: nat, empty: Buckets<T>, t1: Buckets<T>, n1: Buckets<T>, free1: nat,
                      t2: Buckets<T>, n2: Buckets<T>, free2: nat)
    requires forall b | 0 <= b < |empty| :: empty[b] == []
    requires Conserved(empty, orig, free0, n1, t1, free1) && Conserved(t1, n1, free1, t2, n2, free2)
    ensures Undoing(orig, free0, t2, n2, free2)
  {
    EmptyTable(empty);
    assert Elements(n1) + Elements(t1) == Elements(t1) + Elements(n1);
  }

  lemma UndoGoesOn<T>(orig: Buckets<T>, free0: nat, t2: Buckets<T>, n2: Buckets<T>, free2: nat,
                      t3: Buckets<T>, n3: Buckets<T>, free3: nat)
    requires Undoing(orig, free0, t2, n2, free2) && Conserved(t2, n2, free2, t3, n3, free3)
    ensures Undoing(orig, free0, t3, n3, free3)
  {
  }

  lemma ConservesAgain<T>(v0: Buckets<T>, w0: Buckets<T>, free0: nat, v1: Buckets<T>, w1: Buckets<T>, free1: nat,
                          v2: Buckets<T>, w2: Buckets<T>, free2: nat)
    requires Conserved(v0, w0, free0, v1, w1, free1) && Conserved(v1, w1, free1, v2, w2, free2)
    ensures Conserved(v0, w0, free0, v2, w2, free2)
  {
  }

  /** What transfer_entries leaves in a bucket: nothing, or the head. */
  function Rest<T>(s: seq<T>, all: bool): seq<T> {
    if all || s == [] then [] else s[..1]
  }

  /** The first b buckets of w0 have been transferred, up to their heads if safe. */
  ghost predicate Transferred<T>(w0: Buckets<T>, w: Buckets<T>, b: nat, safe: bool) {
    && |w| == |w0| && (forall c | 0 <= c < |w| :: |w[c]| <= |w0[c]|)
    && forall c | 0 <= c < b && c < |w| :: if safe then |w[c]| <= 1 else w[c] == []
  }

  lemma TransferredOne<T>(w0: Buckets<T>, w: Buckets<T>, b: nat, safe: bool, all: bool)
    requires Transferred(w0, w, b, safe) && b < |w|
    ensures var w' := w[b := Rest(w[b], all)];
            Transferred(w0, w', b, safe) && (safe || all ==> Transferred(w0, w', b + 1, safe))
  {
  }

  /** Where transfer_entries can stop for want of memory: an entry alone in its
      bucket of `rest` that would go behind an occupied bucket head of `cur`. */
  ghost predicate Stuck<T>(hasher: (T, nat) -> nat, cur: Buckets<T>, rest: Buckets<T>)
    requires |cur| > 0
  {
    exists c | 0 <= c < |rest| :: StuckAt(hasher, cur, rest, c)
  }

  ghost predicate StuckAt<T>(hasher: (T, nat) -> nat, cur: Buckets<T>, rest: Buckets<T>, c: nat)
    requires c < |rest|
  {
    |rest[c]| == 1 && hasher(rest[c][0], |cur|) < |cur| && cur[hasher(rest[c][0], |cur|)] != []
  }

  /** The forward pass runs out of nodes only if the free list was more than one
      node short of the buckets in use. */
  lemma StuckIsShort<T>(hasher: (T, nat) -> nat, empty: Buckets<T>, orig: Buckets<T>, free0: nat,
                        cur: Buckets<T>, rest: Buckets<T>, free1: nat)
    requires forall b | 0 <= b < |empty| :: empty[b] == []
    requires Conserved(empty, orig, free0, cur, rest, free1)
    requires |cur| > 0 && free1 == 0 && Stuck(hasher, cur, rest)
    ensures free0 + 1 < Used(orig)
  {
    var c :| 0 <= c < |rest| && StuckAt(hasher, cur, rest, c);
    EmptyTable(empty);
    EntriesAreHeadsPlusOverflow(orig);
    EntriesAreHeadsPlusOverflow(cur);
    EntriesAreHeadsPlusOverflow(rest);
    assert |Elements(cur) + Elements(rest)| == |Elements(orig)|;
    SomeUsed(cur, hasher(rest[c][0], |cur|));
    SomeUsed(rest, c);
  }

  lemma SomeUsed<T>(v: Buckets<T>, b: nat)
    requires b < |v| && v[b] != []
    ensures Used(v) > 0
  {
    ReplaceBucket(v, b, []);
  }

  /** The second undo pass never asks for memory: if it is stuck with an entry,
      the node count says that the free list is not empty. */
  lemma UndoCannotStop<T(!new)>(hasher: (T, nat) -> nat, cmp: (T, T) -> bool,
                          orig: Buckets<T>, cur: Buckets<T>, rest: Buckets<T>, free: nat)
    requires GoodHash(hasher, cmp) && |cur| == |orig| > 0
    requires Placed(hasher, orig) && Placed(hasher, cur)
    requires Elements(cur) + Elements(rest) == Elements(orig)
    requires Overflow(cur) + Overflow(rest) + free >= Overflow(orig)
    requires forall b | 0 <= b < |rest| :: |rest[b]| <= 1
    requires Stuck(hasher, cur, rest)
    ensures free > 0
  {
    var c :| 0 <= c < |rest| && StuckAt(hasher, cur, rest, c);
    HeadsOnly(rest);
    var x := rest[c][0];
    BucketInElements(rest, c);
    assert multiset{x} <= Elements(rest);
    UndoFindsFreeNode(hasher, orig, cur, x, free);
  }

  /** When nothing is left to put back, every bucket holds what it held. */
  lemma AllBack<T(!new)>(hasher: (T, nat) -> nat, cmp: (T, T) -> bool, orig: Buckets<T>, cur: Buckets<T>, rest: Buckets<T>)
    requires GoodHash(hasher, cmp) && |cur| == |orig| > 0
    requires Placed(hasher, orig) && Placed(hasher, cur)
    requires Elements(cur) + Elements(rest) == Elements(orig)
    requires forall b | 0 <= b < |rest| :: rest[b] == []
    ensures SameBuckets(orig, cur) && Elements(orig) == Elements(cur)
  {
    EmptyTable(rest);
    PlacedDetermines(hasher, orig, cur);
  }

  /** The second undo pass ends with all entries back. */
  lemma UndoEnds<T(!new)>(hasher: (T, nat) -> nat, cmp: (T, T) -> bool, orig: Buckets<T>, free0: nat,
                          cur: Buckets<T>, rest: Buckets<T>, free: nat, ok: bool)
    requires GoodHash(hasher, cmp) && |orig| > 0 && Placed(hasher, orig) && Placed(hasher, cur)
    requires Undoing(orig, free0, cur, rest, free) && forall c | 0 <= c < |rest| :: |rest[c]| <= 1
    requires if ok then forall c | 0 <= c < |rest| :: rest[c] == [] else free == 0 && Stuck(hasher, cur, rest)
    ensures ok && SameBuckets(orig, cur) && Elements(orig) == Elements(cur) && Used(orig) == Used(cur)
  {
    if ok {
      AllBack(hasher, cmp, orig, cur, rest);
      SameBucketsSameCounts(orig, cur);
    } else {
      UndoCannotStop(hasher, cmp, orig, cur, rest, free);
    }
  }

  lemma TakeOneMore<T>(s: seq<T>, k: nat)
    requires k < |s|
    ensures multiset(s[..k+1]) == multiset(s[..k]) + multiset{s[k]}
  {
    assert s[..k+1] == s[..k] + [s[k]];
  }

  lemma SubMultisetSize<T>(a: multiset<T>, b: multiset<T>)
    requires a <= b
    ensures |a| <= |b|
  {
    assert b == a + (b - a);
  }

  // ---------------------------------------------------------------------
  // The table as a set modulo the comparator

  /** An entry without a match in its own bucket has no match at all. */
  lemma NoMatchAnywhere<T(!new)>(hasher: (T, nat) -> nat, cmp: (T, T) -> bool, v: Buckets<T>, e: T)
    requires GoodHash(hasher, cmp) && |v| > 0 && Placed(hasher, v)
    requires forall x | x in v[hasher(e, |v|)] :: !Match(cmp, e, x)
    ensures forall x | x in Elements(v) :: !Match(cmp, e, x)
  {
    forall x | x in Elements(v)
      ensures !Match(cmp, e, x)
    {
      var b, i := ElementInBucket(v, x);
      assert hasher(v[b][i], |v|) == b;
    }
  }

  lemma StaysDistinct<T(!new)>(hasher: (T, nat) -> nat, cmp: (T, T) -> bool, m: multiset<T>, e: T)
    requires GoodHash(hasher, cmp) && Distinct(cmp, m)
    requires forall x | x in m :: !Match(cmp, e, x)
    ensures Distinct(cmp, m + multiset{e})
  {
  }

  lemma FewerStayDistinct<T>(cmp: (T, T) -> bool, m: multiset<T>, e: T)
    requires Distinct(cmp, m + multiset{e})
    ensures Distinct(cmp, m)
    ensures e !in m
    ensures forall x | x in m :: !Match(cmp, e, x)
  {
    forall x | x in m
      ensures m[x] == 1 && !Match(cmp, e, x)
    {
      assert (m + multiset{e})[x] == m[x] + multiset{e}[x];
      assert x in m + multiset{e} && e in m + multiset{e};
    }
  }

  /** What a removal leaves behind. */
  lemma Removed<T>(hasher: (T, nat) -> nat, cmp: (T, T) -> bool, v: Buckets<T>, w: Buckets<T>, b: nat, x: T)
    requires Placed(hasher, v) && Distinct(cmp, Elements(v)) && b < |v|
    requires exists i | 0 <= i < |v[b]| :: v[b][i] == x && w == Drop(v, b, i)
    ensures Placed(hasher, w) && Distinct(cmp, Elements(w))
    ensures Elements(v) == Elements(w) + multiset{x}
    ensures |w| == |v| && Total(w) == Total(v) - 1 && Used(w) == Used(v) - if w[b] == [] then 1 else 0
    ensures Overflow(w) == Overflow(v) - if |v[b]| > 1 then 1 else 0
  {
    var i :| 0 <= i < |v[b]| && v[b][i] == x && w == Drop(v, b, i);
    DropEntry(hasher, v, b, i);
    FewerStayDistinct(cmp, Elements(w), x);
  }

  // ---------------------------------------------------------------------
  // Walking

  /** The order in which the table is walked. */
  function Flatten<T>(v: Buckets<T>): seq<T> {
    if v == [] then [] else Flatten(v[..|v|-1]) + v[|v|-1]
  }

  lemma {:induction false} FlattenSplit<T>(v: Buckets<T>, k: nat)
    requires k <= |v|
    ensures Flatten(v) == Flatten(v[..k]) + Flatten(v[k..])
  {
    if k < |v| {
      var last := |v| - 1;
      FlattenSplit(v[..last], k);
      assert v[..last][..k] == v[..k] && v[..last][k..] == v[k..][..|v[k..]|-1];
      assert Flatten(v[k..]) == Flatten(v[k..][..|v[k..]|-1]) + v[last];
    } else {
      assert v[..k] == v && v[k..] == [];
    }
  }

  /** A walk meets every entry, each exactly as often as the table holds it. */
  lemma {:induction false} FlattenIsElements<T>(v: Buckets<T>)
    ensures multiset(Flatten(v)) == Elements(v)
    ensures |Flatten(v)| == Total(v)
  {
    if v != [] {
      FlattenIsElements(v[..|v|-1]);
    }
  }

  /** Where bucket b sits in the walk. */
  lemma FlattenAround<T>(v: Buckets<T>, b: nat)
    requires b < |v|
    ensures Flatten(v) == Flatten(v[..b]) + v[b] + Flatten(v[b+1..])
  {
    FlattenSplit(v, b + 1);
    assert v[..b+1][..b] == v[..b];
  }

  lemma {:induction false} FlattenEmpty<T>(v: Buckets<T>)
    requires forall b | 0 <= b < |v| :: v[b] == []
    ensures Flatten(v) == []
  {
    if v != [] {
      FlattenEmpty(v[..|v|-1]);
    }
  }

  /** The walk from bucket b on begins with the first entry of the first bucket in
      use. */
  lemma FlattenFirst<T>(v: Buckets<T>, from: nat, b: nat)
    requires from <= b < |v| && v[b] != []
    requires forall c | from <= c < b :: v[c] == []
    ensures Flatten(v[from..]) != [] && Flatten(v[from..])[0] == v[b][0]
  {
    FlattenAround(v[from..], b - from);
    FlattenEmpty(v[from..][..b - from]);
  }

  /** No entry occurs twice in a walk. */
  lemma WalkHasNoRepeats<T>(cmp: (T, T) -> bool, v: Buckets<T>, i: nat, j: nat)
    requires Distinct(cmp, Elements(v)) && i < j < |Flatten(v)|
    ensures Flatten(v)[i] != Flatten(v)[j]
  {
    FlattenIsElements(v);
    var f := Flatten(v);
    assert f == f[..j] + f[j..];
    assert f[..j][i] == f[i] && f[j..][0] == f[j];
    assert multiset(f)[f[j]] == multiset(f[..j])[f[j]] + multiset(f[j..])[f[j]];
    assert f[i] in f[..j] && f[j] in f[j..];
    assert f[j] in multiset(f);
  }

  lemma {:induction false} WalkPosition<T>(v: Buckets<T>, k: nat) returns (b: nat, pos: nat)
    requires k < |Flatten(v)|
    ensures b < |v| && pos < |v[b]| && v[b][pos] == Flatten(v)[k]
    ensures k == |Flatten(v[..b])| + pos
  {
    var last := |v| - 1;
    if k < |Flatten(v[..last])| {
      b, pos := WalkPosition(v[..last], k);
      assert v[..last][..b] == v[..b];
    } else {
      b, pos := last, k - |Flatten(v[..last])|;
    }
  }

  /** The k-th entry of the walk is found once in its own bucket; the next entry of
      the walk is the next one there, or the first of the later buckets. */
  lemma WalkStep<T>(hasher: (T, nat) -> nat, cmp: (T, T) -> bool, v: Buckets<T>, b: nat, k: nat) returns (pos: nat)
    requires Placed(hasher, v) && Distinct(cmp, Elements(v)) && k < |Flatten(v)|
    requires b == hasher(Flatten(v)[k], |v|)
    ensures b < |v| && pos < |v[b]|
    ensures forall i | 0 <= i < |v[b]| :: v[b][i] == Flatten(v)[k] <==> i == pos
    ensures pos + 1 < |v[b]| ==> k + 1 < |Flatten(v)| && Flatten(v)[k + 1] == v[b][pos + 1]
    ensures pos + 1 == |v[b]| ==> Flatten(v)[k + 1..] == Flatten(v[b+1..])
  {
    var c;
    c, pos := WalkPosition(v, k);
    assert hasher(v[c][pos], |v|) == c;
    FlattenAround(v, b);
    var before := |Flatten(v[..b])|;
    forall i | 0 <= i < |v[b]| && i != pos
      ensures v[b][i] != Flatten(v)[k]
    {
      assert Flatten(v)[before + i] == v[b][i];
      if i < pos {
        WalkHasNoRepeats(cmp, v, before + i, k);
      } else {
        WalkHasNoRepeats(cmp, v, k, before + i);
      }
    }
  }
}
