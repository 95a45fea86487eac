/**
  The chained hash table: bucket heads stored in the bucket array, overflow
  nodes linked behind them, freed nodes recycled through a free list, and a
  rehash that undoes itself when memory runs out.

  Every allocation may fail: which requests for memory are granted is an input,
  so a postcondition holds for every choice of them and says which outcome it
  leads to.  The growth and shrink thresholds are floating-point tuning; whether
  a rehash is attempted, and at which size, is an input as well.
*/
module HashTables {
  import opened Wrappers
  import opened HashView

  // Values of the ghost field Entry.home that are not bucket numbers.
  const FREE := -1      // on the free list
  const DETACHED := -2  // between lists
  const NOBUCKET := -1  // no bucket head is stale

  /** The requests for memory that are granted to one operation: for a bucket
      array, for a node when the head of bucket b is moved by the forward pass of
      a rehash or by its undo pass, and for the node of an entry to insert. */
  datatype Memory = Memory(calloc: bool, forward: nat -> bool, undo: nat -> bool, node: bool)

  /** What the tuning says when the table may have to grow: that it need not, that
      the size is out of range, or the size. */
  datatype Growth = Stay | OutOfRange | To(size: nat)

  /** All that moving the heads of n buckets to another array may ask for. */
  ghost predicate EnoughFor(mem: Memory, n: nat) {
    mem.calloc && forall b: nat | b < n :: mem.forward(b)
  }

  class Entry<T> {
    var data: Option<T>
    var next: Entry?<T>
    // Where the node is: the table (by tag), the list, and whether it is the
    // head of its bucket.
    ghost var tag: int
    ghost var home: int
    ghost var head: bool

    constructor ()
      ensures data == None && next == null && home == DETACHED && !head
    {
      data, next := None, null;
      tag, home, head := 0, DETACHED, false;
    }
  }

  ghost function At<T>(s: seq<Entry<T>>, i: nat): Entry?<T> {
    if i < |s| then s[i] else null
  }

  ghost predicate NoDup<T>(s: seq<Entry<T>>) {
    forall i, j | 0 <= i < j < |s| :: s[i] != s[j]
  }

  /** One node of the chain, if there is one, has gone on top of the free list. */
  ghost predicate Recycled<T>(was: seq<Entry<T>>, now: seq<Entry<T>>, chain: seq<Entry<T>>) {
    if chain == [] then now == was else now != [] && now[0] in chain && now[1..] == was
  }

  lemma NoDupCons<T>(e: Entry<T>, s: seq<Entry<T>>)
    requires NoDup(s) && e !in s
    ensures NoDup([e] + s)
  {
  }

  lemma NoDupCut<T>(s: seq<Entry<T>>, i: nat)
    requires NoDup(s) && i < |s|
    ensures NoDup(Without(s, i))
  {
  }

  class HashTable<T(==,!new)> {
    const hasher: (T, nat) -> nat
    const comparator: (T, T) -> bool
    var bucket: array<Entry<T>>
    var nBuckets: nat
    var nBucketsUsed: nat
    var nEntries: nat
    var freeEntryList: Entry?<T>

    ghost var view: Buckets<T>
    ghost var over: seq<seq<Entry<T>>>
    ghost var free: seq<Entry<T>>
    ghost var repr: set<Entry<T>>
    ghost var tag: int

    // -------------------------------------------------------------------
    // Representation

    /** Bucket b: the head, and the overflow chain behind it.  The next field of
        head `stale` is not looked at. */
    ghost predicate BucketOk(b: nat, stale: int)
      requires b < bucket.Length && b < |view| && b < |over|
      reads this, bucket, repr
    {
      && bucket[b] in repr
      && bucket[b].tag == tag && bucket[b].home == b && bucket[b].head
      && bucket[b].data == (if view[b] == [] then None else Some(view[b][0]))
      && (b == stale || bucket[b].next == At(over[b], 0))
      && |over[b]| == Spill(view[b]) && NoDup(over[b])
      && (forall i | 0 <= i < |over[b]| ::
            && over[b][i] in repr
            && over[b][i].tag == tag && over[b][i].home == b && !over[b][i].head
            && over[b][i].data == Some(view[b][i + 1]))
      && (forall i {:trigger over[b][i].next} | 0 <= i < |over[b]| :: over[b][i].next == At(over[b], i + 1))
    }

    ghost predicate Chains(stale: int)
      reads this, bucket, repr
    {
      && nBuckets == bucket.Length == |view| == |over| > 0
      && forall b | 0 <= b < nBuckets :: BucketOk(b, stale)
    }

    ghost predicate FreeOk()
      reads this, repr
    {
      && freeEntryList == At(free, 0) && NoDup(free)
      && (forall i | 0 <= i < |free| :: free[i] in repr && free[i].home == FREE && !free[i].head)
      && (forall i {:trigger free[i].next} | 0 <= i < |free| :: free[i].next == At(free, i + 1))
    }

    /** All but the entry count, which a table in the middle of a rehash has not. */
    ghost predicate Sound()
      reads this, bucket, repr
    {
      Chains(NOBUCKET) && FreeOk() && Placed(hasher, view) && nBucketsUsed == Used(view)
    }

    ghost predicate Valid()
      reads this, bucket, repr
    {
      && Sound() && GoodHash(hasher, comparator)
      && nEntries == Total(view)
      && Distinct(comparator, Elements(view))
    }

    /** No node is on two lists: the chains of different buckets, the bucket heads
        and the free list have no node in common. */
    lemma ListsAreDisjoint()
      requires Valid()
      ensures forall b, e | 0 <= b < nBuckets && e in over[b] :: e !in free && e !in bucket[..]
      ensures forall b | 0 <= b < nBuckets :: bucket[b] !in free
      ensures forall b, c, e | 0 <= b < nBuckets && 0 <= c < nBuckets && e in over[b] && e in over[c] :: b == c
      ensures forall b, c | 0 <= b < nBuckets && 0 <= c < nBuckets && bucket[b] == bucket[c] :: b == c
    {
      forall b | 0 <= b < nBuckets
        ensures bucket[b].head && bucket[b].home == b && forall e | e in over[b] :: e.home == b && !e.head
      {
        assert BucketOk(b, NOBUCKET);
      }
      assert forall e | e in free :: e.home == FREE;
      assert forall e | e in bucket[..] :: e.head;
    }

    /** A table of n empty buckets, as calloc gives them. */
    constructor Empty(hasher: (T, nat) -> nat, comparator: (T, T) -> bool, n: nat, ghost tag: int)
      requires n > 0
      ensures this.hasher == hasher && this.comparator == comparator && this.tag == tag
      ensures Sound() && nBuckets == n && nEntries == 0 && free == []
      ensures forall b | 0 <= b < n :: view[b] == []
      ensures fresh(bucket) && fresh(repr) && Elements(view) == multiset{}
    {
      this.hasher, this.comparator, this.tag := hasher, comparator, tag;
      var filler := new Entry<T>();
      var heads := new Entry<T>[n](_ => filler);
      ghost var nodes := {};
      for i := 0 to n
        invariant fresh(heads) && fresh(nodes)
        invariant forall k | 0 <= k < i ::
                    && heads[k] in nodes && heads[k].tag == tag && heads[k].home == k && heads[k].head
                    && heads[k].data == None && heads[k].next == null
      {
        var e := new Entry<T>();
        e.tag, e.home, e.head := tag, i, true;
        heads[i] := e;
        nodes := nodes + {e};
      }
      bucket, nBuckets, nBucketsUsed, nEntries, freeEntryList := heads, n, 0, 0, null;
      view := seq(n, _ => []);
      over := seq(n, _ => []);
      free, repr := [], nodes;
      new;
      EmptyTable(view);
      assert forall b | 0 <= b < n :: BucketOk(b, NOBUCKET);
    }

    /** A node that is on no list. */
    ghost predicate Loose(e: Entry<T>)
      reads this, e
    {
      e in repr && e.home == DETACHED && !e.head
    }

    /** Heap changes outside the chains of a table leave its chains in order. */
    twostate lemma ChainsFrame(stale: int)
      requires old(Chains(stale))
      requires bucket == old(bucket) && unchanged(bucket) && nBuckets == old(nBuckets)
      requires view == old(view) && over == old(over) && tag == old(tag) && old(repr) <= repr
      requires forall e | e in old(repr) && old(e.tag == tag && e.home >= 0) :: unchanged(e)
      ensures Chains(stale)
    {
      forall c | 0 <= c < nBuckets
        ensures BucketOk(c, stale)
      {
        assert old(BucketOk(c, stale));
      }
    }

    /** Heap changes within the chain of bucket b leave the other chains in order. */
    twostate lemma OtherBuckets(b: nat)
      requires old(Chains(NOBUCKET)) && b < old(nBuckets)
      requires bucket == old(bucket) && unchanged(bucket) && nBuckets == old(nBuckets)
      requires |view| == |over| == nBuckets && tag == old(tag) && repr == old(repr)
      requires forall c | 0 <= c < nBuckets && c != b :: view[c] == old(view)[c] && over[c] == old(over)[c]
      requires forall e | e in repr && old(e.tag == tag && e.home >= 0 && e.home != b) :: unchanged(e)
      ensures forall c | 0 <= c < nBuckets && c != b :: BucketOk(c, NOBUCKET)
    {
      forall c | 0 <= c < nBuckets && c != b
        ensures BucketOk(c, NOBUCKET)
      {
        assert old(BucketOk(c, NOBUCKET));
      }
    }

    twostate lemma FreeFrame()
      requires old(FreeOk())
      requires freeEntryList == old(freeEntryList) && free == old(free) && old(repr) <= repr
      requires forall e | e in old(repr) && old(e.home == FREE) :: unchanged(e)
      ensures FreeOk()
    {
    }

    // -------------------------------------------------------------------
    // Pointer primitives

    /** Put a loose node behind an occupied bucket head, for one bucket by itself. */
    method LinkNode(b: nat, e: Entry<T>, ghost x: T)
      requires b < bucket.Length == |view| == |over| && BucketOk(b, NOBUCKET) && view[b] != []
      requires Loose(e) && e.data == Some(x)
      modifies this`view, this`over, e, bucket[b]
      ensures view == old(view)[b := [old(view)[b][0], x] + old(view)[b][1..]] && over == old(over)[b := [e] + old(over)[b]]
      ensures BucketOk(b, NOBUCKET)
    {
      ghost var nodes, longer := over[b], [e] + over[b];
      e.next := bucket[b].next;
      bucket[b].next := e;
      NoDupCons(e, nodes);
      e.tag, e.home := tag, b;
      over := over[b := longer];
      view := view[b := [view[b][0], x] + view[b][1..]];
      forall j | 0 <= j < |longer|
        ensures longer[j].next == At(longer, j + 1) && longer[j].data == Some(view[b][j + 1])
      {
        assert j > 0 ==> longer[j] == nodes[j - 1] && old(nodes[j - 1].next) == At(nodes, j);
      }
    }

    /** The same, for the table. */
    method LinkBehindHead(b: nat, e: Entry<T>, ghost x: T)
      requires Chains(NOBUCKET) && FreeOk() && b < nBuckets && view[b] != []
      requires Loose(e) && e.data == Some(x)
      modifies this`view, this`over, e, bucket[b]
      ensures Chains(NOBUCKET) && FreeOk()
      ensures view == old(view)[b := [old(view)[b][0], x] + old(view)[b][1..]]
      ensures e.home >= 0 && e.tag == tag
      ensures bucket[b].home == b && bucket[b].tag == tag
    {
      assert BucketOk(b, NOBUCKET);
      LinkNode(b, e, x);
      assert over[b][0] == e;
      OtherBuckets(b);
      FreeFrame();
    }

    /** Store into an empty bucket head. */
    method FillHead(b: nat, x: T)
      requires Chains(NOBUCKET) && FreeOk() && b < nBuckets && view[b] == []
      modifies this`view, this`nBucketsUsed, bucket[b]
      ensures Chains(NOBUCKET) && FreeOk() && nBucketsUsed == old(nBucketsUsed) + 1
      ensures view == old(view)[b := [x]]
      ensures bucket[b].home == b && bucket[b].tag == tag
    {
      assert BucketOk(b, NOBUCKET);
      bucket[b].data := Some(x);
      nBucketsUsed := nBucketsUsed + 1;
      view := view[b := [x]];
      forall c | 0 <= c < nBuckets
        ensures BucketOk(c, NOBUCKET)
      {
        assert old(BucketOk(c, NOBUCKET));
      }
    }

    /** Recycle a node that has been unlinked from a chain. */
    method FreeEntry(e: Entry<T>, ghost stale: int := NOBUCKET)
      requires Chains(stale) && FreeOk() && Loose(e)
      modifies this`freeEntryList, this`free, e
      ensures Chains(stale) && FreeOk() && free == [e] + old(free)
      ensures e.home == FREE
    {
      e.data := None;
      e.next := freeEntryList;
      freeEntryList := e;
      e.home := FREE;
      free := [e] + free;
      ChainsFrame(stale);
    }

    /** A node for an overflow chain, recycled if possible. */
    method AllocateEntry(malloc: bool) returns (e: Entry?<T>)
      requires Chains(NOBUCKET) && FreeOk()
      modifies this`freeEntryList, this`free, this`repr, free
      ensures Chains(NOBUCKET) && FreeOk()
      ensures old(repr) <= repr && fresh(repr - old(repr))
      ensures e != null ==> Loose(e)
      ensures e == null <==> old(free) == [] && !malloc
      ensures old(free) != [] ==> e == old(free)[0] && free == old(free)[1..] && repr == old(repr)
      ensures old(free) == [] ==> free == [] && (e == null ==> repr == old(repr)) && (e != null ==> fresh(e) && repr == old(repr) + {e})
      ensures forall i | 1 <= i < |old(free)| :: unchanged(old(free)[i])
    {
      if freeEntryList != null {
        e := freeEntryList;
        freeEntryList := e.next;
        e.home := DETACHED;
        free := free[1..];
      } else if malloc {
        e := new Entry();
        repr := repr + {e};
      } else {
        e := null;
      }
      ChainsFrame(NOBUCKET);
    }

    /** A node for an overflow chain, with its data filled in. */
    method NewEntry(x: T, malloc: bool) returns (e: Entry?<T>)
      requires Chains(NOBUCKET) && FreeOk()
      modifies this`freeEntryList, this`free, this`repr, free
      ensures Chains(NOBUCKET) && FreeOk()
      ensures old(repr) <= repr && fresh(repr - old(repr))
      ensures e == null <==> old(free) == [] && !malloc
      ensures e == null ==> free == []
      ensures e != null ==> Loose(e) && e.data == Some(x)
      ensures e != null ==> (if old(free) == [] then fresh(e) else e == old(free)[0] && old(e.home) == FREE)
      ensures |free| >= |old(free)| - 1
      ensures forall f | f in old(free) :: f == e || unchanged(f)
    {
      e := AllocateEntry(malloc);
      if e != null {
        label Allocated:
        e.data := Some(x);
        ChainsFrame@Allocated(NOBUCKET);
        FreeFrame@Allocated();
      }
    }

    /** An entry goes behind an occupied bucket head, on a recycled or new node.
        False when there is none. */
    method PlaceBehindHead(b: nat, x: T, malloc: bool) returns (ok: bool)
      requires Chains(NOBUCKET) && FreeOk() && b < nBuckets && view[b] != []
      modifies this`view, this`over, this`free, this`freeEntryList, this`repr, repr
      ensures Chains(NOBUCKET) && FreeOk() && old(repr) <= repr && fresh(repr - old(repr))
      ensures if ok then view == Put(old(view), b, x) && |free| >= |old(free)| - 1
              else view == old(view) && free == []
      ensures ok <==> old(free) != [] || malloc
      ensures forall e | e in old(repr) && old(e.home >= 0 && e.tag != tag) :: unchanged(e)
    {
      var e := NewEntry(x, malloc);
      if e == null {
        return false;
      }
      assert BucketOk(b, NOBUCKET);
      LinkBehindHead(b, e, x);
      return true;
    }

    /** An entry that is not in the table goes in: behind the bucket head or into
        it.  False when a node is needed and there is none. */
    method Place(x: T, malloc: bool) returns (ok: bool)
      requires Sound() && hasher(x, nBuckets) < nBuckets
      modifies this`view, this`over, this`free, this`freeEntryList, this`nBucketsUsed, this`repr, repr
      ensures Sound() && |view| == |old(view)| && old(repr) <= repr && fresh(repr - old(repr))
      ensures ok ==> view == Put(old(view), hasher(x, nBuckets), x)
      ensures ok ==> Overflow(view) + |free| >= Overflow(old(view)) + |old(free)|
      ensures !ok ==> view == old(view) && free == [] && nBucketsUsed == old(nBucketsUsed)
      ensures ok <==> old(view)[hasher(x, nBuckets)] == [] || old(free) != [] || malloc
      ensures forall e | e in old(repr) && old(e.home >= 0 && e.tag != tag) :: unchanged(e)
    {
      var b := hasher(x, nBuckets);
      ghost var w := PutEntry(hasher, view, x);
      assert BucketOk(b, NOBUCKET);
      ok := true;
      if bucket[b].data != None {
        ok := PlaceBehindHead(b, x, malloc);
      } else {
        FillHead(b, x);
      }
    }

    // -------------------------------------------------------------------
    // Rehashing

    /** The two tables of a rehash: same functions, one pool of nodes, of which
        `this` (the destination) holds the free list. */
    ghost predicate Paired(src: HashTable<T>)
      reads this, bucket, repr, src, src.bucket, src.repr
    {
      && src != this && src.bucket != bucket && src.tag != tag && src.repr == repr
      && src.hasher == hasher && src.comparator == comparator && GoodHash(hasher, comparator)
      && Sound()
      && src.Chains(NOBUCKET) && Placed(hasher, src.view) && src.nBucketsUsed == Used(src.view)
    }

    /** Nodes taken off a chain; those from the k-th on are still linked to one
        another. */
    ghost predicate Pending(nodes: seq<Entry<T>>, data: seq<T>, k: nat)
      reads this, repr
    {
      && k <= |nodes| == |data| && NoDup(nodes)
      && (forall i | k <= i < |nodes| ::
            && nodes[i] in repr
            && nodes[i].home == DETACHED && !nodes[i].head
            && nodes[i].data == Some(data[i]))
      && (forall i {:trigger nodes[i].next} | k <= i < |nodes| :: nodes[i].next == At(nodes, i + 1))
    }

    /** One overflow entry moves into this table: its node is relinked, or freed
        when the entry can live in a bucket head. */
    method MoveNode(e: Entry<T>, ghost x: T)
      requires Sound()
      requires Loose(e) && e.data == Some(x) && hasher(x, nBuckets) < nBuckets
      modifies this`view, this`over, this`free, this`freeEntryList, this`nBucketsUsed
      modifies e, bucket[hasher(x, nBuckets)]
      ensures Sound()
      ensures |view| == |old(view)|
      ensures Elements(view) == Elements(old(view)) + multiset{x}
      ensures Overflow(view) + |free| == Overflow(old(view)) + |old(free)| + 1
      ensures e.home == FREE || (e.home >= 0 && e.tag == tag)
      ensures var h := bucket[hasher(x, nBuckets)]; old(h.tag) == tag && old(h.home) >= 0 && h.tag == tag && h.home >= 0
    {
      var hb := hasher(e.data.value, nBuckets);
      ghost var w := PutEntry(hasher, view, x);
      assert BucketOk(hb, NOBUCKET);
      if bucket[hb].data != None {
        LinkBehindHead(hb, e, x);
      } else {
        FillHead(hb, e.data.value);
        FreeEntry(e);
      }
    }

    /** First half of the body of transfer_entries: the overflow entries of
        bucket b move into `this`, needing no memory. */
    method MoveOverflow(src: HashTable<T>, b: nat)
      requires Paired(src) && b < src.nBuckets && src.view[b] != []
      modifies this`view, this`over, this`free, this`freeEntryList, this`nBucketsUsed
      modifies src`view, src`over, repr
      ensures Paired(src) && repr == old(repr)
      ensures src.view == old(src.view)[b := old(src.view)[b][..1]]
      ensures |view| == |old(view)|
      ensures Elements(view) == Elements(old(view)) + multiset(old(src.view)[b][1..])
      ensures Overflow(view) + |free| == Overflow(old(view)) + |old(free)| + |old(src.view)[b]| - 1
    {
      ghost var nodes, data := src.over[b], src.view[b][1..];
      KeepHead(hasher, src.view, b);
      var cursor := src.FirstOverflow(b);
      assert src.BucketOk(b, NOBUCKET);
      Loosen(src, b);
      MoveDetached(src, b, cursor, nodes, data);
    }

    /** Ghost bookkeeping: the chain of bucket b is taken apart, which leaves this
        table as it is. */
    ghost method Loosen(src: HashTable<T>, b: nat)
      requires Paired(src) && b < src.nBuckets && src.view[b] != []
      modifies src`view, src`over, src.over[b]
      ensures Sound() && src.Chains(b)
      ensures src.view == old(src.view)[b := old(src.view)[b][..1]] && src.over == old(src.over)[b := []]
      ensures Pending(old(src.over)[b], old(src.view)[b][1..], 0)
    {
      assert src.BucketOk(b, NOBUCKET);
      src.Detach(b);
      ChainsFrame(NOBUCKET);
      FreeFrame();
    }

    /** The loop over the overflow entries of bucket b, and bucket->next = NULL. */
    method MoveDetached(src: HashTable<T>, b: nat, first: Entry?<T>, ghost nodes: seq<Entry<T>>, ghost data: seq<T>)
      requires src != this && src.bucket != bucket && src.tag != tag && src.repr == repr
      requires src.hasher == hasher && src.comparator == comparator && GoodHash(hasher, comparator)
      requires Sound() && src.Chains(b) && Placed(hasher, src.view) && src.nBucketsUsed == Used(src.view)
      requires b < src.nBuckets && src.over[b] == []
      requires Pending(nodes, data, 0) && first == At(nodes, 0)
      modifies this`view, this`over, this`free, this`freeEntryList, this`nBucketsUsed, repr
      ensures Paired(src)
      ensures |view| == |old(view)|
      ensures Elements(view) == Elements(old(view)) + multiset(data)
      ensures Overflow(view) + |free| == Overflow(old(view)) + |old(free)| + |data|
    {
      MovePending(src, b, first, nodes, data);
      assert src.BucketOk(b, b);
      CutEmptied(src, b);
    }

    /** bucket->next = NULL behind the loop. */
    method CutEmptied(src: HashTable<T>, b: nat)
      requires src != this && src.bucket != bucket && src.tag != tag && src.repr == repr
      requires src.hasher == hasher && src.comparator == comparator && GoodHash(hasher, comparator)
      requires Sound() && src.Chains(b) && Placed(hasher, src.view) && src.nBucketsUsed == Used(src.view)
      requires b < src.nBuckets && src.over[b] == []
      modifies src.bucket[b]
      ensures Paired(src) && src.bucket[b] in repr
    {
      assert src.BucketOk(b, b);
      src.CutOverflow(b);
      ChainsFrame(NOBUCKET);
      FreeFrame();
    }

    /** The loop over the overflow entries of a bucket. */
    method MovePending(src: HashTable<T>, b: nat, first: Entry?<T>, ghost nodes: seq<Entry<T>>, ghost data: seq<T>)
      requires src != this && src.bucket != bucket && src.tag != tag && src.repr == repr
      requires Sound() && src.Chains(b) && GoodHash(hasher, comparator)
      requires Pending(nodes, data, 0) && first == At(nodes, 0)
      modifies this`view, this`over, this`free, this`freeEntryList, this`nBucketsUsed, repr
      ensures Sound() && src.Chains(b)
      ensures |view| == |old(view)|
      ensures Elements(view) == Elements(old(view)) + multiset(data)
      ensures Overflow(view) + |free| == Overflow(old(view)) + |old(free)| + |data|
    {
      var cursor := first;
      ghost var k := 0;
      while cursor != null
        invariant k <= |data| && cursor == At(nodes, k)
        invariant Pending(nodes, data, k) && Sound() && src.Chains(b)
        invariant |view| == |old(view)|
        invariant Elements(view) == Elements(old(view)) + multiset(data[..k])
        invariant Overflow(view) + |free| == Overflow(old(view)) + |old(free)| + k
        decreases |data| - k
      {
        var next := cursor.next;
        MoveNext(src, b, cursor, nodes, data, k);
        TakeOneMore(data, k);
        cursor := next;
        k := k + 1;
      }
      assert data[..k] == data;
    }

    /** One turn of the loop over the overflow entries of a bucket. */
    method MoveNext(src: HashTable<T>, b: nat, cursor: Entry<T>, ghost nodes: seq<Entry<T>>, ghost data: seq<T>, ghost k: nat)
      requires src != this && src.bucket != bucket && src.tag != tag && src.repr == repr
      requires Sound() && src.Chains(b) && GoodHash(hasher, comparator)
      requires Pending(nodes, data, k) && k < |nodes| && nodes[k] == cursor
      modifies this`view, this`over, this`free, this`freeEntryList, this`nBucketsUsed, repr
      ensures Sound() && src.Chains(b) && Pending(nodes, data, k + 1)
      ensures |view| == |old(view)|
      ensures Elements(view) == Elements(old(view)) + multiset{data[k]}
      ensures Overflow(view) + |free| == Overflow(old(view)) + |old(free)| + 1
    {
      assert BucketOk(hasher(data[k], nBuckets), NOBUCKET);
      MoveNode(cursor, data[k]);
      src.ChainsFrame(b);
    }

    method FirstOverflow(b: nat) returns (e: Entry?<T>)
      requires Chains(NOBUCKET) && b < nBuckets
      ensures e == At(over[b], 0)
    {
      assert BucketOk(b, NOBUCKET);
      e := bucket[b].next;
    }

    /** The statement bucket->next = NULL, once the chain has been taken apart. */
    method CutOverflow(b: nat)
      requires Chains(b) && b < nBuckets && over[b] == []
      modifies bucket[b]
      ensures Chains(NOBUCKET)
      ensures bucket[b].home == b && bucket[b].tag == tag
      ensures old(bucket[b].home) == b && old(bucket[b].tag) == tag
    {
      assert BucketOk(b, b);
      bucket[b].next := null;
      forall c | 0 <= c < nBuckets
        ensures BucketOk(c, NOBUCKET)
      {
        assert old(BucketOk(c, b));
      }
    }

    /** Ghost bookkeeping: the overflow chain of bucket b is being taken apart. */
    ghost method Detach(b: nat)
      requires Chains(NOBUCKET) && b < nBuckets && view[b] != []
      modifies this`view, this`over, over[b]
      ensures Chains(b)
      ensures view == old(view)[b := old(view)[b][..1]]
      ensures over == old(over)[b := []]
      ensures Pending(old(over)[b], old(view)[b][1..], 0)
      ensures bucket[b].next == old(bucket[b].next)
    {
      assert BucketOk(b, NOBUCKET);
      forall i | 0 <= i < |over[b]| {
        over[b][i].home := DETACHED;
      }
      view := view[b := view[b][..1]];
      over := over[b := []];
      forall c | 0 <= c < nBuckets
        ensures BucketOk(c, b)
      {
        assert old(BucketOk(c, NOBUCKET));
      }
    }

    /** The statements bucket->data = NULL and n_buckets_used--. */
    method ClearHead(b: nat)
      requires Chains(NOBUCKET) && Placed(hasher, view) && nBucketsUsed == Used(view)
      requires b < nBuckets && |view[b]| == 1
      modifies this`view, this`nBucketsUsed, bucket[b]
      ensures Chains(NOBUCKET) && Placed(hasher, view) && nBucketsUsed == Used(view)
      ensures view == old(view)[b := []] == Drop(old(view), b, 0)
      ensures old(bucket[b].home == b && bucket[b].tag == tag)
      ensures bucket[b].home == b && bucket[b].tag == tag
    {
      assert BucketOk(b, NOBUCKET);
      DropEntry(hasher, view, b, 0);
      bucket[b].data := None;
      nBucketsUsed := nBucketsUsed - 1;
      view := view[b := []];
      assert view == Drop(old(view), b, 0);
      forall c | 0 <= c < nBuckets
        ensures BucketOk(c, NOBUCKET)
      {
        assert old(BucketOk(c, NOBUCKET));
      }
    }

    /** The entry in the head of bucket b is placed in this table as well. */
    method PlaceHead(src: HashTable<T>, b: nat, malloc: bool) returns (ok: bool)
      requires Paired(src) && b < src.nBuckets && |src.view[b]| == 1
      modifies this`view, this`over, this`free, this`freeEntryList, this`nBucketsUsed, this`repr, src`repr, repr
      ensures Paired(src) && old(repr) <= repr && fresh(repr - old(repr)) && src.bucket[b] in old(repr)
      ensures |view| == |old(view)|
      ensures ok ==> Elements(view) == Elements(old(view)) + multiset{src.view[b][0]}
      ensures ok ==> Overflow(view) + |free| >= Overflow(old(view)) + |old(free)|
      ensures !ok ==> view == old(view) && |old(free)| == |free| == 0 && !malloc && view[hasher(src.view[b][0], nBuckets)] != []
    {
      ghost var x := src.view[b][0];
      assert src.BucketOk(b, NOBUCKET);
      ghost var w := PutEntry(hasher, view, x);
      ok := Place(src.bucket[b].data.value, malloc);
      src.repr := repr;
      src.ChainsFrame(NOBUCKET);
    }

    /** The head of bucket b, which has been placed in this table, is emptied. */
    method LeaveHead(src: HashTable<T>, b: nat)
      requires Paired(src) && b < src.nBuckets && |src.view[b]| == 1
      modifies src`view, src`nBucketsUsed, src.bucket[b]
      ensures Paired(src) && src.view == old(src.view)[b := []]
    {
      src.ClearHead(b);
      ChainsFrame(NOBUCKET);
      FreeFrame();
    }

    /** Second half of the body of transfer_entries: the bucket head moves. */
    method MoveHead(src: HashTable<T>, b: nat, malloc: bool) returns (ok: bool)
      requires Paired(src) && b < src.nBuckets && |src.view[b]| == 1
      modifies this`view, this`over, this`free, this`freeEntryList, this`nBucketsUsed, this`repr
      modifies src`view, src`nBucketsUsed, src`repr, repr
      ensures Paired(src) && old(repr) <= repr && fresh(repr - old(repr))
      ensures |view| == |old(view)|
      ensures ok ==> src.view == old(src.view)[b := []]
      ensures ok ==> Elements(view) == Elements(old(view)) + multiset(old(src.view)[b])
      ensures ok ==> Overflow(view) + |free| >= Overflow(old(view)) + |old(free)|
      ensures !ok ==> src.view == old(src.view) && view == old(view) && |old(free)| == |free| == 0 && !malloc
      ensures !ok ==> view[hasher(src.view[b][0], nBuckets)] != []
    {
      assert src.view[b] == [src.view[b][0]];
      ok := PlaceHead(src, b, malloc);
      if ok {
        LeaveHead(src, b);
      }
    }

    /** The body of transfer_entries, for a bucket that is in use. */
    method MoveBucket(src: HashTable<T>, b: nat, safe: bool, malloc: bool) returns (ok: bool)
      requires Paired(src) && b < src.nBuckets && src.view[b] != []
      modifies this`view, this`over, this`free, this`freeEntryList, this`nBucketsUsed, this`repr
      modifies src`view, src`over, src`nBucketsUsed, src`repr, repr
      ensures Paired(src) && old(repr) <= repr && fresh(repr - old(repr))
      ensures |view| == |old(view)|
      ensures src.view == old(src.view)[b := if ok && !safe then [] else old(src.view)[b][..1]]
      ensures Conserved(old(view), old(src.view), |old(free)|, view, src.view, |free|)
      ensures safe ==> ok
      ensures !ok ==> free == [] && !malloc && view[hasher(src.view[b][0], nBuckets)] != []
    {
      ghost var v, w, f := view, src.view, |free|;
      KeepHead(hasher, w, b);
      MoveOverflow(src, b);
      MoveConserves(v, w, f, view, src.view, |free|, multiset(w[b][1..]));
      ok := safe;
      if !safe {
        ok := MoveOnlyHead(src, b, malloc);
      }
    }

    method MoveOnlyHead(src: HashTable<T>, b: nat, malloc: bool) returns (ok: bool)
      requires Paired(src) && b < src.nBuckets && |src.view[b]| == 1
      modifies this`view, this`over, this`free, this`freeEntryList, this`nBucketsUsed, this`repr
      modifies src`view, src`nBucketsUsed, src`repr, repr
      ensures Paired(src) && old(repr) <= repr && fresh(repr - old(repr))
      ensures Conserved(old(view), old(src.view), |old(free)|, view, src.view, |free|)
      ensures src.view == if ok then old(src.view)[b := []] else old(src.view)
      ensures !ok ==> free == [] && !malloc && view[hasher(src.view[b][0], nBuckets)] != []
    {
      ghost var v, w, f := view, src.view, |free|;
      TakeHead(w, b);
      ok := MoveHead(src, b, malloc);
      if ok {
        MoveConserves(v, w, f, view, src.view, |free|, multiset(w[b]));
      }
    }

    /** The body of transfer_entries, which has started on the tables v0 and w0. */
    method TransferBucket(src: HashTable<T>, b: nat, safe: bool, malloc: bool, ghost v0: Buckets<T>, ghost w0: Buckets<T>, ghost free0: nat)
      returns (ok: bool)
      requires Paired(src) && b < src.nBuckets
      requires Conserved(v0, w0, free0, view, src.view, |free|) && Transferred(w0, src.view, b, safe)
      modifies this`view, this`over, this`free, this`freeEntryList, this`nBucketsUsed, this`repr
      modifies src`view, src`over, src`nBucketsUsed, src`repr, repr
      ensures Paired(src) && old(repr) <= repr && fresh(repr - old(repr))
      ensures Conserved(v0, w0, free0, view, src.view, |free|) && Transferred(w0, src.view, if ok then b + 1 else b, safe)
      ensures !ok ==> !safe && !malloc && free == [] && StuckAt(hasher, view, src.view, b)
    {
      ghost var v, w, f := view, src.view, |free|;
      ok := true;
      assert src.BucketOk(b, NOBUCKET);
      if src.bucket[b].data != None {
        ok := MoveBucket(src, b, safe, malloc);
      }
      ConservesAgain(v0, w0, free0, v, w, f, view, src.view, |free|);
      TransferredOne(w0, w, b, safe, ok && !safe);
      assert src.view == w[b := Rest(w[b], ok && !safe)];
    }

    /** transfer_entries: move entries from src into this table.  If `safe`, only
        overflow entries move and no memory is needed.  False when memory runs
        out, with both tables in order; malloc says for which bucket heads a node
        would be granted. */
    method TransferEntries(src: HashTable<T>, safe: bool, malloc: nat -> bool) returns (ok: bool)
      requires Paired(src)
      modifies this`view, this`over, this`free, this`freeEntryList, this`nBucketsUsed, this`repr
      modifies src`view, src`over, src`nBucketsUsed, src`repr, repr
      ensures Paired(src) && old(repr) <= repr && fresh(repr - old(repr))
      ensures Conserved(old(view), old(src.view), |old(free)|, view, src.view, |free|)
      ensures nEntries == old(nEntries) && src.nEntries == old(src.nEntries)
      ensures forall c | 0 <= c < |src.view| :: |src.view[c]| <= |old(src.view)[c]|
      ensures safe ==> ok && forall c | 0 <= c < |src.view| :: |src.view[c]| <= 1
      ensures ok && !safe ==> forall c | 0 <= c < |src.view| :: src.view[c] == []
      ensures !ok ==> free == [] && Stuck(hasher, view, src.view)
      ensures !ok ==> exists c: nat | c < |src.view| :: !malloc(c)
    {
      ghost var v0, w0, free0 := view, src.view, |free|;
      var b := 0;
      while b < src.nBuckets
        invariant b <= src.nBuckets
        invariant Paired(src) && old(repr) <= repr && fresh(repr - old(repr))
        invariant Conserved(v0, w0, free0, view, src.view, |free|) && Transferred(w0, src.view, b, safe)
      {
        ok := TransferBucket(src, b, safe, malloc(b), v0, w0, free0);
        if !ok {
          return;
        }
        b := b + 1;
      }
      return true;
    }

    /** hash_rehash: move all entries to a bucket array of another size.  On
        failure every bucket again holds the entries it held before.  It succeeds
        when all memory is granted, or only the bucket array but the free list is
        one node short of the buckets in use.  The abort call is unreachable,
        whatever allocations fail. */
    method Rehash(newSize: nat, mem: Memory) returns (ok: bool)
      requires Valid()
      modifies this, repr
      ensures Valid() && old(repr) <= repr && fresh(repr - old(repr))
      ensures bucket == old(bucket) || fresh(bucket)
      ensures Elements(view) == Elements(old(view)) && nEntries == old(nEntries)
      ensures ok ==> nBuckets == newSize
      ensures !ok ==> SameBuckets(old(view), view) && nBuckets == old(nBuckets) && nBucketsUsed == old(nBucketsUsed)
      ensures newSize == 0 ==> !ok
      ensures newSize == old(nBuckets) ==> ok && view == old(view)
      ensures newSize != old(nBuckets) && !mem.calloc ==> !ok && view == old(view)
      ensures newSize > 0 && EnoughFor(mem, old(nBuckets)) ==> ok
      ensures newSize > 0 && mem.calloc && |old(free)| + 1 >= old(nBucketsUsed) ==> ok
    {
      if newSize == 0 {
        return false;
      }
      if newSize == nBuckets {
        return true;
      }
      if !mem.calloc {
        return false;
      }
      var newTable := new HashTable<T>.Empty(hasher, comparator, newSize, tag + 1);
      EntriesAreHeadsPlusOverflow(view);
      ok := MoveInto(newTable, mem);
      EntriesAreHeadsPlusOverflow(view);
    }

    /** hash_rehash once the new bucket array has been allocated. */
    method MoveInto(newTable: HashTable<T>, mem: Memory) returns (ok: bool)
      requires Sound() && GoodHash(hasher, comparator)
      requires newTable != this && newTable.bucket != bucket && newTable.tag != tag && newTable.repr !! repr
      requires newTable.hasher == hasher && newTable.comparator == comparator
      requires newTable.Sound() && newTable.free == []
      requires forall b | 0 <= b < |newTable.view| :: newTable.view[b] == []
      modifies this, repr, newTable, newTable.repr
      ensures Sound() && old(repr) <= repr && fresh(repr - old(repr) - old(newTable.repr))
      ensures bucket == if ok then newTable.bucket else old(bucket)
      ensures newTable.bucket == old(newTable.bucket)
      ensures Elements(view) == Elements(old(view)) && nEntries == old(nEntries)
      ensures !ok ==> SameBuckets(old(view), view) && nBucketsUsed == old(nBucketsUsed)
      ensures !ok ==> |old(free)| + 1 < old(nBucketsUsed) && exists b: nat | b < old(nBuckets) :: !mem.forward(b)
    {
      ghost var orig, free0, empty := view, |free|, newTable.view;
      ok := Forward(newTable, mem);
      if ok {
        AllMoved(empty, orig, free0, newTable.view, view, |newTable.free|);
        Adopt(newTable);
      } else {
        RollBack(newTable, mem, orig, free0, empty);
      }
    }

    /** The forward pass: all entries, or as many as memory allows. */
    method Forward(newTable: HashTable<T>, mem: Memory) returns (ok: bool)
      requires Sound() && GoodHash(hasher, comparator)
      requires newTable != this && newTable.bucket != bucket && newTable.tag != tag && newTable.repr !! repr
      requires newTable.hasher == hasher && newTable.comparator == comparator
      requires newTable.Sound() && newTable.free == []
      requires forall b | 0 <= b < |newTable.view| :: newTable.view[b] == []
      modifies this`view, this`over, this`nBucketsUsed, this`repr, newTable, repr, newTable.repr
      ensures newTable.Paired(this) && old(repr) <= repr && fresh(repr - old(repr) - old(newTable.repr))
      ensures newTable.bucket == old(newTable.bucket)
      ensures Conserved(old(newTable.view), old(view), |old(free)|, newTable.view, view, |newTable.free|)
      ensures ok ==> forall b | 0 <= b < |view| :: view[b] == []
      ensures !ok ==> |old(free)| + 1 < Used(old(view)) && exists b: nat | b < |view| :: !mem.forward(b)
    {
      ghost var empty, orig, free0 := newTable.view, view, |free|;
      ShareNodes(newTable);
      ok := newTable.TransferEntries(this, false, mem.forward);
      if !ok {
        StuckIsShort(hasher, empty, orig, free0, newTable.view, view, |newTable.free|);
      }
    }

    /** What hash_rehash does when the forward pass has run out of memory. */
    method RollBack(newTable: HashTable<T>, mem: Memory, ghost orig: Buckets<T>, ghost free0: nat, ghost empty: Buckets<T>)
      requires newTable.Paired(this) && nBuckets == |orig| && Placed(hasher, orig)
      requires forall b | 0 <= b < |empty| :: empty[b] == []
      requires Conserved(empty, orig, free0, newTable.view, view, |newTable.free|)
      modifies this`view, this`over, this`free, this`freeEntryList, this`nBucketsUsed, this`repr
      modifies newTable`view, newTable`over, newTable`nBucketsUsed, newTable`repr, repr
      ensures Sound() && old(repr) <= repr && fresh(repr - old(repr))
      ensures SameBuckets(orig, view) && Elements(orig) == Elements(view) && nBucketsUsed == Used(orig)
      ensures nEntries == old(nEntries)
    {
      TakeBackFreeList(newTable);
      Undo(newTable, mem, orig, free0, empty);
    }

    /** The two undo passes of hash_rehash: orig is the table before the rehash
        (with free0 nodes on the free list), empty the new table as allocated. */
    method Undo(newTable: HashTable<T>, mem: Memory, ghost orig: Buckets<T>, ghost free0: nat, ghost empty: Buckets<T>)
      requires Paired(newTable) && nBuckets == |orig| && Placed(hasher, orig)
      requires forall b | 0 <= b < |empty| :: empty[b] == []
      requires Conserved(empty, orig, free0, newTable.view, view, |free|)
      modifies this`view, this`over, this`free, this`freeEntryList, this`nBucketsUsed, this`repr
      modifies newTable`view, newTable`over, newTable`nBucketsUsed, newTable`repr, repr
      ensures Sound() && old(repr) <= repr && fresh(repr - old(repr))
      ensures SameBuckets(orig, view) && Elements(orig) == Elements(view) && nBucketsUsed == Used(orig)
    {
      ghost var t1, n1, free1 := view, newTable.view, |free|;
      var ok := TransferEntries(newTable, true, mem.undo);
      if ok {
        UndoStarts(orig, free0, empty, t1, n1, free1, view, newTable.view, |free|);
        ok := UndoHeads(newTable, mem, orig, free0);
      }
      if !ok {
        // abort ();
        assert false;
      }
    }

    /** The second undo pass: it needs no memory either. */
    method UndoHeads(newTable: HashTable<T>, mem: Memory, ghost orig: Buckets<T>, ghost free0: nat) returns (ok: bool)
      requires Paired(newTable) && nBuckets == |orig| && Placed(hasher, orig)
      requires Undoing(orig, free0, view, newTable.view, |free|)
      requires forall c | 0 <= c < |newTable.view| :: |newTable.view[c]| <= 1
      modifies this`view, this`over, this`free, this`freeEntryList, this`nBucketsUsed, this`repr
      modifies newTable`view, newTable`over, newTable`nBucketsUsed, newTable`repr, repr
      ensures Sound() && old(repr) <= repr && fresh(repr - old(repr))
      ensures ok && SameBuckets(orig, view) && Elements(orig) == Elements(view) && nBucketsUsed == Used(orig)
    {
      ghost var t2, n2, free2 := view, newTable.view, |free|;
      ok := TransferEntries(newTable, false, mem.undo);
      UndoGoesOn(orig, free0, t2, n2, free2, view, newTable.view, |free|);
      UndoEnds(hasher, comparator, orig, free0, view, newTable.view, |free|, ok);
    }

    /** The new table takes over the free list, and the two share their nodes. */
    method ShareNodes(newTable: HashTable<T>)
      requires Sound() && GoodHash(hasher, comparator)
      requires newTable != this && newTable.bucket != bucket && newTable.tag != tag && newTable.repr !! repr
      requires newTable.hasher == hasher && newTable.comparator == comparator
      requires newTable.Sound() && newTable.free == []
      modifies this`repr, newTable`repr, newTable`free, newTable`freeEntryList
      ensures newTable.Paired(this)
      ensures newTable.free == free && repr == old(repr) + old(newTable.repr)
    {
      newTable.freeEntryList := freeEntryList;
      newTable.free := free;
      newTable.repr := newTable.repr + repr;
      repr := newTable.repr;
      ChainsFrame(NOBUCKET);
      newTable.ChainsFrame(NOBUCKET);
    }

    /** A table with the same fields as another one. */
    lemma SameTable(newTable: HashTable<T>)
      requires newTable.Sound() && hasher == newTable.hasher
      requires bucket == newTable.bucket && nBuckets == newTable.nBuckets && nBucketsUsed == newTable.nBucketsUsed
      requires freeEntryList == newTable.freeEntryList && view == newTable.view && over == newTable.over
      requires free == newTable.free && tag == newTable.tag && repr == newTable.repr
      ensures Sound()
    {
      forall c | 0 <= c < nBuckets
        ensures BucketOk(c, NOBUCKET)
      {
        assert newTable.BucketOk(c, NOBUCKET);
      }
    }

    /** Tie up the loose ends of a successful rehash. */
    method Adopt(newTable: HashTable<T>)
      requires newTable != this && newTable.Sound() && newTable.hasher == hasher
      modifies this
      ensures Sound() && nEntries == old(nEntries)
      ensures bucket == newTable.bucket && view == newTable.view && repr == newTable.repr
    {
      TakeFields(newTable);
      SameTable(newTable);
    }

    method TakeFields(newTable: HashTable<T>)
      requires newTable != this
      modifies this
      ensures bucket == newTable.bucket && nBuckets == newTable.nBuckets && nBucketsUsed == newTable.nBucketsUsed
      ensures freeEntryList == newTable.freeEntryList && view == newTable.view && over == newTable.over
      ensures free == newTable.free && tag == newTable.tag && repr == newTable.repr && nEntries == old(nEntries)
    {
      bucket := newTable.bucket;
      nBuckets := newTable.nBuckets;
      nBucketsUsed := newTable.nBucketsUsed;
      freeEntryList := newTable.freeEntryList;
      view, over, free, tag, repr := newTable.view, newTable.over, newTable.free, newTable.tag, newTable.repr;
    }

    /** The free list comes back after a failed forward pass. */
    method TakeBackFreeList(newTable: HashTable<T>)
      requires newTable.Paired(this)
      modifies this`free, this`freeEntryList
      ensures Paired(newTable)
      ensures free == newTable.free
    {
      freeEntryList := newTable.freeEntryList;
      free := newTable.free;
      ChainsFrame(NOBUCKET);
    }

    // -------------------------------------------------------------------
    // Lookup, insertion, deletion

    /** The i-th node of bucket b, counting the head. */
    ghost function Node(b: nat, i: nat): Entry?<T>
      requires b < bucket.Length && b < |over|
      reads this, bucket
    {
      if i == 0 then bucket[b] else At(over[b], i - 1)
    }

    /** hash_lookup: an entry of the table that matches, if there is one. */
    method Lookup(entry: T) returns (r: Option<T>)
      requires Valid()
      ensures r.Some? ==> r.value in Elements(view) && Match(comparator, entry, r.value)
      ensures r.None? ==> forall x | x in Elements(view) :: !Match(comparator, entry, x)
    {
      var b := hasher(entry, nBuckets);
      assert BucketOk(b, NOBUCKET);
      if bucket[b].data == None {
        NoMatchAnywhere(hasher, comparator, view, entry);
        return None;
      }
      var cursor: Entry?<T> := bucket[b];
      ghost var i := 0;
      while cursor != null
        invariant i <= |view[b]| && cursor == Node(b, i)
        invariant forall k | 0 <= k < i :: !Match(comparator, entry, view[b][k])
        decreases |view[b]| - i
      {
        assert cursor.data == Some(view[b][i]);
        if entry == cursor.data.value || comparator(entry, cursor.data.value) {
          BucketInElements(view, b);
          assert view[b][i] in multiset(view[b]);
          return cursor.data;
        }
        cursor := cursor.next;
        i := i + 1;
      }
      NoMatchAnywhere(hasher, comparator, view, entry);
      return None;
    }

    /** The first overflow entry of bucket b moves up into the head; its node is
        now on no list. */
    method BumpOverflow(b: nat) returns (next: Entry<T>)
      requires Chains(NOBUCKET) && FreeOk() && b < nBuckets && |view[b]| > 1
      modifies this`view, this`over, repr
      ensures Chains(NOBUCKET) && FreeOk() && Loose(next)
      ensures view == Drop(old(view), b, 0) && next == At(old(over)[b], 0)
    {
      assert BucketOk(b, NOBUCKET);
      next := ShiftHead(b);
      OtherBuckets(b);
      FreeFrame();
    }

    /** *bucket = *next, for one bucket by itself. */
    method ShiftHead(b: nat) returns (next: Entry<T>)
      requires b < bucket.Length == |view| == |over| && BucketOk(b, NOBUCKET) && |view[b]| > 1
      modifies this`view, this`over, bucket[b], over[b][0]
      ensures view == Drop(old(view), b, 0) && over == old(over)[b := old(over)[b][1..]]
      ensures BucketOk(b, NOBUCKET) && Loose(next) && next == old(over)[b][0]
    {
      ghost var nodes := over[b];
      next := bucket[b].next;
      bucket[b].data, bucket[b].next := next.data, next.next;
      next.home := DETACHED;
      over := over[b := nodes[1..]];
      view := Drop(view, b, 0);
      forall j | 0 <= j < |over[b]|
        ensures over[b][j].next == At(over[b], j + 1) && over[b][j].data == Some(view[b][j + 1])
      {
        assert over[b][j] == nodes[j + 1] && old(nodes[j + 1].next) == At(nodes, j + 2);
      }
    }

    /** Entry i + 1 of bucket b leaves its chain; cursor is the node before it. */
    method UnlinkNext(b: nat, cursor: Entry<T>, ghost i: nat) returns (next: Entry<T>)
      requires Chains(NOBUCKET) && FreeOk() && b < nBuckets
      requires i + 1 < |view[b]| && cursor == Node(b, i)
      modifies this`view, this`over, repr
      ensures Chains(NOBUCKET) && FreeOk() && Loose(next)
      ensures view == Drop(old(view), b, i + 1) && next == At(old(over)[b], i)
    {
      assert BucketOk(b, NOBUCKET);
      next := CutNode(b, cursor, i);
      OtherBuckets(b);
      FreeFrame();
    }

    /** The statement cursor->next = next->next, for one bucket by itself. */
    method CutNode(b: nat, cursor: Entry<T>, ghost i: nat) returns (next: Entry<T>)
      requires b < bucket.Length == |view| == |over| && BucketOk(b, NOBUCKET)
      requires i + 1 < |view[b]| && cursor == Node(b, i)
      modifies this`view, this`over, cursor, over[b][i]
      ensures view == Drop(old(view), b, i + 1) && over == old(over)[b := Without(old(over)[b], i)]
      ensures BucketOk(b, NOBUCKET) && Loose(next) && next == old(over[b][i])
    {
      ghost var nodes := over[b];
      next := cursor.next;
      cursor.next := next.next;
      next.home := DETACHED;
      NoDupCut(nodes, i);
      ghost var left := Without(nodes, i);
      over := over[b := left];
      view := Drop(view, b, i + 1);
      forall j | 0 <= j < |left|
        ensures left[j].next == At(left, j + 1) && left[j].data == Some(view[b][j + 1])
      {
        ghost var k := if j < i then j else j + 1;
        assert left[j] == nodes[k] && old(nodes[k].next) == At(nodes, k + 1);
      }
    }

    method EmptyHead(b: nat)
      requires Chains(NOBUCKET) && FreeOk() && b < nBuckets && |view[b]| == 1
      modifies this`view, bucket[b]
      ensures Chains(NOBUCKET) && FreeOk()
      ensures view == Drop(old(view), b, 0)
    {
      assert BucketOk(b, NOBUCKET);
      bucket[b].data := None;
      view := Drop(view, b, 0);
      forall c | 0 <= c < nBuckets
        ensures BucketOk(c, NOBUCKET)
      {
        assert old(BucketOk(c, NOBUCKET));
      }
      FreeFrame();
    }

    /** Deletion of the entry in the head of bucket b. */
    method DeleteHead(b: nat)
      requires Chains(NOBUCKET) && FreeOk() && b < nBuckets && view[b] != []
      modifies this`view, this`over, this`free, this`freeEntryList, repr
      ensures Chains(NOBUCKET) && FreeOk() && view == Drop(old(view), b, 0)
      ensures Recycled(old(free), free, old(over)[b])
    {
      assert BucketOk(b, NOBUCKET);
      if bucket[b].next != null {
        var next := BumpOverflow(b);
        FreeEntry(next);
      } else {
        EmptyHead(b);
      }
    }

    /** Deletion of entry i + 1 of bucket b; cursor is the node before it. */
    method DeleteNext(b: nat, cursor: Entry<T>, ghost i: nat)
      requires Chains(NOBUCKET) && FreeOk() && b < nBuckets
      requires i + 1 < |view[b]| && cursor == Node(b, i)
      modifies this`view, this`over, this`free, this`freeEntryList, repr
      ensures Chains(NOBUCKET) && FreeOk() && view == Drop(old(view), b, i + 1)
      ensures Recycled(old(free), free, old(over)[b])
    {
      assert BucketOk(b, NOBUCKET);
      var next := UnlinkNext(b, cursor, i);
      FreeEntry(next);
    }

    /** hash_find_entry: the entry that matches, if any, and its bucket; unlinked
        and its node recycled when `delete` is set, with the count of used buckets
        left to the caller. */
    method FindEntry(entry: T, delete: bool) returns (data: Option<T>, b: nat)
      requires Sound() && GoodHash(hasher, comparator)
      modifies this`view, this`over, this`free, this`freeEntryList, repr
      ensures Chains(NOBUCKET) && FreeOk() && b == hasher(entry, nBuckets) < nBuckets
      ensures data.None? ==> forall x | x in Elements(old(view)) :: !Match(comparator, entry, x)
      ensures data.Some? ==> Match(comparator, entry, data.value)
      ensures !delete || data.None? ==> view == old(view) && over == old(over) && free == old(free)
      ensures !delete || data.None? ==> forall e | e in repr :: unchanged(e)
      ensures data.Some? ==> exists i | 0 <= i < |old(view)[b]| ::
                  && old(view)[b][i] == data.value
                  && (delete ==> view == Drop(old(view), b, i))
      ensures delete && data.Some? ==> Recycled(old(free), free, old(over)[b])
    {
      b := hasher(entry, nBuckets);
      assert BucketOk(b, NOBUCKET);
      data := None;
      if bucket[b].data != None {
        if entry == bucket[b].data.value || comparator(entry, bucket[b].data.value) {
          data := bucket[b].data;
          if delete {
            DeleteHead(b);
          }
          return;
        }
        var cursor := bucket[b];
        ghost var i := 0;
        while cursor.next != null
          invariant i < |view[b]| && cursor == Node(b, i)
          invariant view == old(view) && over == old(over)
          invariant forall k | 0 <= k <= i :: !Match(comparator, entry, view[b][k])
          decreases |view[b]| - i
        {
          var next := cursor.next;
          assert next.data == Some(view[b][i + 1]);
          if entry == next.data.value || comparator(entry, next.data.value) {
            data := next.data;
            if delete {
              DeleteNext(b, cursor, i);
            }
            return;
          }
          cursor := next;
          i := i + 1;
        }
      }
      NoMatchAnywhere(hasher, comparator, view, entry);
    }

    /** hash_find_entry without deletion, in an orderly table. */
    method FindOnly(entry: T) returns (data: Option<T>, b: nat)
      requires Valid()
      modifies this`view, this`over, this`free, this`freeEntryList, repr
      ensures Valid() && view == old(view) && free == old(free)
      ensures data.None? ==> forall x | x in Elements(view) :: !Match(comparator, entry, x)
      ensures data.Some? ==> data.value in Elements(view) && Match(comparator, entry, data.value)
    {
      data, b := FindEntry(entry, false);
      if data != None {
        BucketInElements(view, b);
      }
    }

    /** hash_insert_if_absent: 0 and the matching entry; else 1 if the entry has been
        added, -1 if memory ran out, be it for the growth that the tuning asks for
        or for a node that is needed. */
    method InsertIfAbsent(entry: T, growth: Growth, mem: Memory) returns (code: int, matched: Option<T>)
      requires Valid()
      modifies this, repr
      ensures Valid() && old(repr) <= repr && fresh(repr - old(repr)) && (bucket == old(bucket) || fresh(bucket))
      ensures code == 0 || code == 1 || code == -1
      ensures code == 0 <==> matched.Some?
      ensures code == 0 ==> matched.value in Elements(view) && Match(comparator, entry, matched.value)
      ensures code != 0 ==> forall x | x in Elements(old(view)) :: !Match(comparator, entry, x)
      ensures Elements(view) == Elements(old(view)) + if code == 1 then multiset{entry} else multiset{}
      ensures code == 0 || growth.Stay? ==> nBuckets == old(nBuckets)
      ensures code != 0 && growth.Stay? ==>
                (code == 1 <==> old(view)[hasher(entry, nBuckets)] == [] || old(free) != [] || mem.node)
      ensures code != 0 && (growth.OutOfRange? || growth == To(0)) ==> code == -1
      ensures code != 0 && growth.To? && growth.size != old(nBuckets) && !mem.calloc ==> code == -1
      ensures code == 1 && growth.To? ==> nBuckets == growth.size
      ensures code != 0 && growth.To? && growth.size > 0 && EnoughFor(mem, old(nBuckets)) && mem.node ==> code == 1
    {
      var data, _ := FindOnly(entry);
      if data != None {
        return 0, data;
      }
      code := InsertNew(entry, growth, mem);
      matched := None;
    }

    /** hash_insert_if_absent for an entry that matches nothing in the table. */
    method InsertNew(entry: T, growth: Growth, mem: Memory) returns (code: int)
      requires Valid()
      requires forall x | x in Elements(view) :: !Match(comparator, entry, x)
      modifies this, repr
      ensures Valid() && old(repr) <= repr && fresh(repr - old(repr)) && (bucket == old(bucket) || fresh(bucket))
      ensures code == 1 || code == -1
      ensures Elements(view) == Elements(old(view)) + if code == 1 then multiset{entry} else multiset{}
      ensures growth.Stay? ==> nBuckets == old(nBuckets)
      ensures growth.Stay? ==> (code == 1 <==> old(view)[hasher(entry, nBuckets)] == [] || old(free) != [] || mem.node)
      ensures growth.OutOfRange? || growth == To(0) ==> code == -1
      ensures growth.To? && growth.size != old(nBuckets) && !mem.calloc ==> code == -1
      ensures code == 1 && growth.To? ==> nBuckets == growth.size
      ensures growth.To? && growth.size > 0 && EnoughFor(mem, old(nBuckets)) && mem.node ==> code == 1
    {
      var ok := MaybeGrow(entry, growth, mem);
      if !ok {
        return -1;
      }
      code := AddNew(entry, mem.node);
    }

    /** Growing before the insertion of an entry that matches nothing.  False if
        there is no memory for it. */
    method MaybeGrow(entry: T, growth: Growth, mem: Memory) returns (ok: bool)
      requires Valid()
      requires forall x | x in Elements(view) :: !Match(comparator, entry, x)
      modifies this, repr
      ensures Valid() && old(repr) <= repr && fresh(repr - old(repr)) && (bucket == old(bucket) || fresh(bucket))
      ensures Elements(view) == Elements(old(view))
      ensures growth.Stay? ==> ok && view == old(view) && free == old(free) && nBuckets == old(nBuckets)
      ensures growth.OutOfRange? || growth == To(0) ==> !ok
      ensures growth.To? && growth.size != old(nBuckets) && !mem.calloc ==> !ok
      ensures growth.To? && growth.size > 0 && EnoughFor(mem, old(nBuckets)) ==> ok
      ensures ok && growth.To? ==> nBuckets == growth.size
    {
      ok := true;
      if growth.OutOfRange? {
        return false;
      }
      if growth.To? {
        ok := Rehash(growth.size, mem);
        if ok {
          FindNothing(entry);
        }
      }
    }

    /** The second search of hash_insert_if_absent, behind which it cannot abort. */
    method FindNothing(entry: T)
      requires Valid()
      requires forall x | x in Elements(view) :: !Match(comparator, entry, x)
      modifies this`view, this`over, this`free, this`freeEntryList, repr
      ensures Valid() && view == old(view) && free == old(free)
    {
      var data, _ := FindOnly(entry);
      if data != None {
        // abort ();
        assert false;
      }
    }

    /** Shrinking after a removal, if the tuning asks for it.  If there is no memory
        for it, the free list is given up. */
    method MaybeShrink(shrink: Option<nat>, mem: Memory)
      requires Valid()
      modifies this, repr
      ensures Valid() && old(repr) <= repr && fresh(repr - old(repr)) && (bucket == old(bucket) || fresh(bucket))
      ensures Elements(view) == Elements(old(view))
      ensures shrink.None? ==> view == old(view) && free == old(free) && nBuckets == old(nBuckets)
      ensures shrink.Some? ==> nBuckets == shrink.value || (SameBuckets(old(view), view) && free == [] && nBuckets == old(nBuckets))
      ensures shrink.Some? && shrink.value > 0 && EnoughFor(mem, old(nBuckets)) ==> nBuckets == shrink.value
    {
      if shrink.Some? {
        var ok := Rehash(shrink.value, mem);
        if !ok {
          DropFreeList();
        }
      }
    }

    /** The nodes of the free list are given back. */
    method DropFreeList()
      requires Valid()
      modifies this`free, this`freeEntryList
      ensures Valid() && free == []
    {
      freeEntryList := null;
      free := [];
      ChainsFrame(NOBUCKET);
    }

    /** The end of hash_insert_if_absent: the entry matches nothing in the table. */
    method AddNew(entry: T, malloc: bool) returns (code: int)
      requires Valid()
      requires forall x | x in Elements(view) :: !Match(comparator, entry, x)
      modifies this, repr
      ensures Valid() && old(repr) <= repr && fresh(repr - old(repr)) && bucket == old(bucket) && nBuckets == old(nBuckets)
      ensures code == 1 || code == -1
      ensures code == 1 <==> old(view)[hasher(entry, nBuckets)] == [] || old(free) != [] || malloc
      ensures Elements(view) == Elements(old(view)) + if code == 1 then multiset{entry} else multiset{}
    {
      ghost var w := PutEntry(hasher, view, entry);
      StaysDistinct(hasher, comparator, Elements(view), entry);
      var ok := Place(entry, malloc);
      code := -1;
      if ok {
        CountUp();
        code := 1;
      }
    }

    method CountUp()
      requires Sound()
      modifies this`nEntries
      ensures Sound() && nEntries == old(nEntries) + 1
    {
      nEntries := nEntries + 1;
      ChainsFrame(NOBUCKET);
      FreeFrame();
    }

    /** hash_remove: the matching entry, taken out of the table.  If its bucket falls
        empty the table is shrunk, should the tuning ask for it. */
    method Remove(entry: T, shrink: Option<nat>, mem: Memory) returns (data: Option<T>)
      requires Valid()
      modifies this, repr
      ensures Valid() && old(repr) <= repr && fresh(repr - old(repr)) && (bucket == old(bucket) || fresh(bucket))
      ensures data.None? ==> Elements(view) == Elements(old(view))
      ensures data.None? ==> forall x | x in Elements(view) :: !Match(comparator, entry, x)
      ensures data.Some? ==> Match(comparator, entry, data.value)
      ensures data.Some? ==> Elements(old(view)) == Elements(view) + multiset{data.value}
      ensures var emptied := data.Some? && |old(view)[hasher(entry, old(nBuckets))]| == 1;
              && (!emptied || shrink.None? ==> nBuckets == old(nBuckets) && |free| + Overflow(view) == |old(free)| + Overflow(old(view)))
              && (emptied && shrink.Some? ==> nBuckets == shrink.value || (nBuckets == old(nBuckets) && free == []))
              && (emptied && shrink.Some? && shrink.value > 0 && EnoughFor(mem, old(nBuckets)) ==> nBuckets == shrink.value)
    {
      var emptied;
      data, emptied := TakeOut(entry);
      if emptied {
        MaybeShrink(shrink, mem);
      }
    }

    /** hash_remove up to the shrinking; emptied says that a bucket fell empty. */
    method TakeOut(entry: T) returns (data: Option<T>, emptied: bool)
      requires Valid()
      modifies this`view, this`over, this`free, this`freeEntryList, this`nEntries, this`nBucketsUsed, repr
      ensures Valid() && hasher(entry, nBuckets) < nBuckets
      ensures data.None? ==> Elements(view) == Elements(old(view))
      ensures data.None? ==> forall x | x in Elements(view) :: !Match(comparator, entry, x)
      ensures data.Some? ==> Match(comparator, entry, data.value)
      ensures data.Some? ==> Elements(old(view)) == Elements(view) + multiset{data.value}
      ensures nBuckets == old(nBuckets)
      ensures emptied <==> data.Some? && |old(view)[hasher(entry, nBuckets)]| == 1
      ensures |free| + Overflow(view) == |old(free)| + Overflow(old(view))
    {
      var b;
      data, b := FindEntry(entry, true);
      emptied := false;
      if data != None {
        assert old(BucketOk(b, NOBUCKET));
        Removed(hasher, comparator, old(view), view, b, data.value);
        emptied := CountDown(b);
      }
    }

    /** The statements n_entries-- and n_buckets_used--, the latter if bucket b has
        fallen empty. */
    method CountDown(b: nat) returns (emptied: bool)
      requires Chains(NOBUCKET) && FreeOk() && b < nBuckets
      requires nEntries == Total(view) + 1 && nBucketsUsed == Used(view) + if view[b] == [] then 1 else 0
      modifies this`nEntries, this`nBucketsUsed
      ensures Chains(NOBUCKET) && FreeOk() && nEntries == Total(view) && nBucketsUsed == Used(view)
      ensures emptied <==> view[b] == []
    {
      assert BucketOk(b, NOBUCKET);
      nEntries := nEntries - 1;
      emptied := bucket[b].data == None;
      if emptied {
        nBucketsUsed := nBucketsUsed - 1;
      }
      ChainsFrame(NOBUCKET);
      FreeFrame();
    }

    /** hash_table_ok: the two counters agree with what is in the buckets. */
    method TableOk() returns (ok: bool)
      requires Chains(NOBUCKET)
      ensures ok <==> nBucketsUsed == Used(view) && nEntries == Total(view)
    {
      var used, entries := 0, 0;
      var b := 0;
      assert view[..nBuckets] == view;
      while b < nBuckets
        invariant b <= nBuckets
        invariant used == Used(view[..b]) && entries == Total(view[..b])
      {
        assert BucketOk(b, NOBUCKET);
        assert view[..b+1][..b] == view[..b];
        if bucket[b].data != None {
          used, entries := used + 1, entries + 1;
          var cursor := bucket[b].next;
          ghost var i := 0;
          while cursor != null
            invariant i <= |over[b]| && cursor == At(over[b], i)
            invariant entries == Total(view[..b]) + 1 + i
            decreases |over[b]| - i
          {
            entries := entries + 1;
            cursor := cursor.next;
            i := i + 1;
          }
        }
        b := b + 1;
      }
      ok := used == nBucketsUsed && entries == nEntries;
    }

    // -------------------------------------------------------------------
    // Clearing

    /** hash_clear: every entry is handed to the data freer once, and every
        overflow node goes to the free list. */
    method Clear() returns (freed: seq<T>)
      requires Valid()
      modifies this`view, this`over, this`free, this`freeEntryList, this`nEntries, this`nBucketsUsed, repr
      ensures Valid() && Elements(view) == multiset{}
      ensures multiset(freed) == Elements(old(view))
      ensures |free| == |old(free)| + Overflow(old(view))
    {
      freed := ClearBuckets();
      ResetCounters();
    }

    /** The loop of hash_clear. */
    method ClearBuckets() returns (freed: seq<T>)
      requires Chains(NOBUCKET) && FreeOk()
      modifies this`view, this`over, this`free, this`freeEntryList, repr
      ensures Chains(NOBUCKET) && FreeOk() && |view| == |old(view)| && forall c | 0 <= c < |view| :: view[c] == []
      ensures Elements(view) + multiset(freed) == Elements(old(view))
      ensures |free| + Overflow(view) == |old(free)| + Overflow(old(view))
    {
      freed := [];
      var b := 0;
      while b < nBuckets
        invariant b <= nBuckets && Chains(NOBUCKET) && FreeOk() && |view| == |old(view)|
        invariant forall c | 0 <= c < b :: view[c] == []
        invariant Elements(view) + multiset(freed) == Elements(old(view))
        invariant |free| + Overflow(view) == |old(free)| + Overflow(old(view))
      {
        var more := ClearIfUsed(b);
        freed := freed + more;
        b := b + 1;
      }
    }

    method ClearIfUsed(b: nat) returns (freed: seq<T>)
      requires Chains(NOBUCKET) && FreeOk() && b < nBuckets
      modifies this`view, this`over, this`free, this`freeEntryList, repr
      ensures Chains(NOBUCKET) && FreeOk() && view == old(view)[b := []]
      ensures Elements(view) + multiset(freed) == Elements(old(view))
      ensures |free| + Overflow(view) == |old(free)| + Overflow(old(view))
    {
      freed := [];
      assert BucketOk(b, NOBUCKET);
      if bucket[b].data != None {
        EmptyBucket(view, b);
        freed := ClearBucket(b);
      }
    }

    method ResetCounters()
      requires Chains(NOBUCKET) && FreeOk() && GoodHash(hasher, comparator) && forall c | 0 <= c < |view| :: view[c] == []
      modifies this`nBucketsUsed, this`nEntries
      ensures Valid() && Elements(view) == multiset{} && Overflow(view) == 0
    {
      nBucketsUsed, nEntries := 0, 0;
      ChainsFrame(NOBUCKET);
      FreeFrame();
      EmptyTable(view);
    }

    method ClearBucket(b: nat) returns (freed: seq<T>)
      requires Chains(NOBUCKET) && FreeOk() && b < nBuckets && view[b] != []
      modifies this`view, this`over, this`free, this`freeEntryList, repr
      ensures Chains(NOBUCKET) && FreeOk() && view == old(view)[b := []]
      ensures freed == old(view)[b][1..] + old(view)[b][..1]
      ensures |free| == |old(free)| + |old(view)[b]| - 1
    {
      ghost var nodes, data := over[b], view[b][1..];
      var cursor := FirstOverflow(b);
      assert BucketOk(b, NOBUCKET);
      Detach(b);
      FreeFrame();
      freed := FreePending(b, cursor, nodes, data);
      assert BucketOk(b, b);
      freed := freed + [bucket[b].data.value];
      WipeHead(b);
      assert view == old(view)[b := []];
    }

    /** The loop over the overflow entries in hash_clear. */
    method FreePending(b: nat, first: Entry?<T>, ghost nodes: seq<Entry<T>>, ghost data: seq<T>) returns (freed: seq<T>)
      requires Chains(b) && FreeOk()
      requires Pending(nodes, data, 0) && first == At(nodes, 0)
      modifies this`free, this`freeEntryList, repr
      ensures Chains(b) && FreeOk()
      ensures freed == data && |free| == |old(free)| + |data|
    {
      var cursor := first;
      ghost var k := 0;
      freed := [];
      while cursor != null
        invariant k <= |data| && cursor == At(nodes, k)
        invariant Pending(nodes, data, k) && Chains(b) && FreeOk()
        invariant freed == data[..k] && |free| == |old(free)| + k
        decreases |data| - k
      {
        freed := freed + [cursor.data.value];
        var next := cursor.next;
        FreeEntry(cursor, b);
        cursor := next;
        k := k + 1;
      }
    }

    /** The statements bucket->data = NULL and bucket->next = NULL. */
    method WipeHead(b: nat)
      requires Chains(b) && FreeOk() && b < nBuckets && |view[b]| == 1
      modifies this`view, bucket[b]
      ensures Chains(NOBUCKET) && FreeOk() && view == old(view)[b := []]
    {
      assert BucketOk(b, b);
      bucket[b].data, bucket[b].next := None, null;
      view := view[b := []];
      forall c | 0 <= c < nBuckets
        ensures BucketOk(c, NOBUCKET)
      {
        assert old(BucketOk(c, b));
      }
      FreeFrame();
    }

    // -------------------------------------------------------------------
    // Walking

    /** hash_get_first.  Its abort call is unreachable. */
    method GetFirst() returns (r: Option<T>)
      requires Valid()
      ensures r == if Flatten(view) == [] then None else Some(Flatten(view)[0])
    {
      FlattenIsElements(view);
      if nEntries == 0 {
        return None;
      }
      var b := 0;
      while true
        invariant b <= nBuckets && forall c | 0 <= c < b :: view[c] == []
        decreases nBuckets - b
      {
        if b == nBuckets {
          // abort ();
          EmptyTable(view);
          assert false;
        }
        assert BucketOk(b, NOBUCKET);
        if bucket[b].data != None {
          FlattenFirst(view, 0, b);
          assert view[0..] == view;
          return bucket[b].data;
        }
        b := b + 1;
      }
    }

    /** hash_get_next: the entry after a given one in the walk. */
    method GetNext(entry: T, ghost k: nat) returns (r: Option<T>)
      requires Valid() && k < |Flatten(view)| && Flatten(view)[k] == entry
      ensures r == if k + 1 < |Flatten(view)| then Some(Flatten(view)[k + 1]) else None
    {
      var b := hasher(entry, nBuckets);
      ghost var pos := WalkStep(hasher, comparator, view, b, k);
      var cursor: Entry?<T> := bucket[b];
      ghost var i := 0;
      assert BucketOk(b, NOBUCKET);
      while cursor != null
        invariant cursor == Node(b, i) && i <= |view[b]|
        invariant i <= pos || pos == |view[b]| - 1
        decreases |view[b]| - i
      {
        assert cursor.data == Some(view[b][i]);
        if cursor.data.value == entry && cursor.next != null {
          return cursor.next.data;
        }
        cursor := cursor.next;
        i := i + 1;
      }
      r := FirstFrom(b + 1);
    }

    /** The first entry of the first bucket in use from bucket `from` on. */
    method FirstFrom(from: nat) returns (r: Option<T>)
      requires Chains(NOBUCKET) && from <= nBuckets
      ensures r == if Flatten(view[from..]) == [] then None else Some(Flatten(view[from..])[0])
    {
      var b := from;
      while b < nBuckets
        invariant from <= b <= nBuckets && forall c | from <= c < b :: view[c] == []
      {
        assert BucketOk(b, NOBUCKET);
        if bucket[b].data != None {
          FlattenFirst(view, from, b);
          return bucket[b].data;
        }
        b := b + 1;
      }
      FlattenEmpty(view[from..]);
      return None;
    }
  }

  /** hash_initialize: NULL iff there is no memory for the table or its n buckets, or
      no size is possible, which n being 0 stands for. */
  method Initialize<T(==,!new)>(hasher: (T, nat) -> nat, comparator: (T, T) -> bool, n: nat, malloc: bool, calloc: bool)
    returns (t: HashTable?<T>)
    requires GoodHash(hasher, comparator)
    ensures t == null <==> !malloc || n == 0 || !calloc
    ensures t != null ==>
              && t.Valid() && fresh(t) && fresh(t.bucket) && fresh(t.repr)
              && t.hasher == hasher && t.comparator == comparator && t.nBuckets == n
              && Elements(t.view) == multiset{}
  {
    if !malloc {
      return null;
    }
    if n == 0 || !calloc {
      return null;
    }
    var table := new HashTable<T>.Empty(hasher, comparator, n, 0);
    EmptyTable(table.view);
    t := table;
  }
}
