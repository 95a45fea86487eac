/**
  Whole histories of a hash table: any sequence of operations, any pattern of
  allocation failures.  The table behaves as a set of entries modulo the
  comparator, and what a lookup finds is determined by the history alone; where
  memory does not run out, by the calls alone.
*/
module HashRuns {
  import opened Wrappers
  import opened HashView
  import opened HashTables

  /** A call, with what the tuning says and which requests for memory are granted. */
  datatype Op<T> =
    | Insert(entry: T, growth: Growth, mem: Memory)
    | Remove(entry: T, shrink: Option<nat>, mem: Memory)
    | Lookup(entry: T)
    | Rehash(size: nat, mem: Memory)
    | Clear

  /** What the caller sees: the code of hash_insert_if_absent, the entry returned
      by it, by hash_remove or by hash_lookup, and the result of hash_rehash. */
  datatype Outcome<T> = Code(code: int, matched: Option<T>) | Found(data: Option<T>) | Resized(ok: bool) | Cleared

  ghost predicate HasMatch<T>(cmp: (T, T) -> bool, m: multiset<T>, e: T) {
    exists x | x in m :: Match(cmp, e, x)
  }

  /** No request for memory is refused. */
  ghost predicate Plenty(mem: Memory) {
    mem.calloc && mem.node && forall b: nat :: mem.forward(b)
  }

  /** An insertion cannot run out of memory, nor out of sizes. */
  ghost predicate Unhindered<T>(op: Op<T>) {
    op.Insert? ==> Plenty(op.mem) && !op.growth.OutOfRange? && op.growth != To(0)
  }

  ghost predicate Step<T>(cmp: (T, T) -> bool, m: multiset<T>, op: Op<T>, out: Outcome<T>, m': multiset<T>) {
    match op
    case Insert(e, _, _) =>
      && (Unhindered(op) ==> out.Code? && out.code != -1)
      && out.Code? && out.code in {-1, 0, 1}
      && (out.code == 0 ==> m' == m && out.matched.Some? && out.matched.value in m && Match(cmp, e, out.matched.value))
      && (out.code == 1 ==> m' == m + multiset{e} && !HasMatch(cmp, m, e))
      && (out.code == -1 ==> m' == m && !HasMatch(cmp, m, e))
    case Remove(e, _, _) =>
      && out.Found?
      && (out.data.None? ==> m' == m && !HasMatch(cmp, m, e))
      && (out.data.Some? ==> m == m' + multiset{out.data.value} && Match(cmp, e, out.data.value))
    case Lookup(e) =>
      && out.Found? && m' == m
      && (out.data.None? ==> !HasMatch(cmp, m, e))
      && (out.data.Some? ==> out.data.value in m && Match(cmp, e, out.data.value))
    case Rehash(size, mem) => out.Resized? && m' == m && (Plenty(mem) && size > 0 ==> out.ok) && (out.ok ==> size > 0)
    case Clear => out.Cleared? && m' == multiset{}
  }

  /** The states a history passes through. */
  ghost predicate Run<T>(cmp: (T, T) -> bool, states: seq<multiset<T>>, ops: seq<Op<T>>, outs: seq<Outcome<T>>) {
    && |states| == |ops| + 1 == |outs| + 1
    && forall i | 0 <= i < |ops| :: Step(cmp, states[i], ops[i], outs[i], states[i + 1])
  }

  /** Whether there is a match for e behind an operation, if there was one before
      it or not. */
  predicate Leaves<T(==)>(cmp: (T, T) -> bool, op: Op<T>, out: Outcome<T>, e: T, before: bool) {
    match (op, out)
    case (Insert(x, _, _), Code(code, _)) => (code == 1 && Match(cmp, e, x)) || before
    case (Remove(_, _, _), Found(Some(d))) => !Match(cmp, e, d) && before
    case (Clear, _) => false
    case _ => before
  }

  /** Whether the history leaves a match for e in a table that starts empty. */
  predicate Present<T(==)>(cmp: (T, T) -> bool, ops: seq<Op<T>>, outs: seq<Outcome<T>>, e: T)
    requires |ops| == |outs|
  {
    if |ops| == 0 then false
    else
      var last := |ops| - 1;
      Leaves(cmp, ops[last], outs[last], e, Present(cmp, ops[..last], outs[..last], e))
  }

  /** The bucket of an entry is in use, and no node is free. */
  ghost predicate NeedsNode<T>(v: Buckets<T>, free: seq<Entry<T>>, hasher: (T, nat) -> nat, entry: T) {
    hasher(entry, |v|) < |v| && v[hasher(entry, |v|)] != [] && free == []
  }

  method PerformInsert<T(==,!new)>(t: HashTable<T>, e: T, growth: Growth, mem: Memory) returns (out: Outcome<T>)
    requires t.Valid()
    modifies t, t.repr
    ensures t.Valid() && old(t.repr) <= t.repr && fresh(t.repr - old(t.repr)) && (t.bucket == old(t.bucket) || fresh(t.bucket))
    ensures Step(t.comparator, Elements(old(t.view)), Insert(e, growth, mem), out, Elements(t.view))
    ensures growth.Stay? && out.code == -1 ==> !mem.node && NeedsNode(old(t.view), old(t.free), t.hasher, e)
  {
    var code, matched := t.InsertIfAbsent(e, growth, mem);
    out := Code(code, matched);
  }

  /** One operation on a real table is one step of the abstract one. */
  method Perform<T(==,!new)>(t: HashTable<T>, op: Op<T>) returns (out: Outcome<T>)
    requires t.Valid()
    modifies t, t.repr
    ensures t.Valid() && old(t.repr) <= t.repr && fresh(t.repr - old(t.repr)) && (t.bucket == old(t.bucket) || fresh(t.bucket))
    ensures Step(t.comparator, Elements(old(t.view)), op, out, Elements(t.view))
    ensures op.Insert? && op.growth.Stay? && out.code == -1 ==> !op.mem.node && NeedsNode(old(t.view), old(t.free), t.hasher, op.entry)
  {
    match op
    case Insert(e, growth, mem) =>
      out := PerformInsert(t, e, growth, mem);
    case Remove(e, shrink, mem) =>
      var data := t.Remove(e, shrink, mem);
      out := Found(data);
    case Lookup(e) =>
      var data := t.Lookup(e);
      out := Found(data);
    case Rehash(size, mem) =>
      var ok := t.Rehash(size, mem);
      out := Resized(ok);
    case Clear =>
      var _ := t.Clear();
      out := Cleared;
  }

  /** Any history of a real table is a run of the abstract one, and ends in a
      table that hash_table_ok accepts. */
  method Execute<T(==,!new)>(t: HashTable<T>, ops: seq<Op<T>>) returns (outs: seq<Outcome<T>>, ok: bool, ghost states: seq<multiset<T>>)
    requires t.Valid()
    modifies t, t.repr
    ensures t.Valid() && ok
    ensures Run(t.comparator, states, ops, outs)
    ensures states[0] == Elements(old(t.view)) && states[|ops|] == Elements(t.view)
  {
    outs := [];
    states := [Elements(t.view)];
    var i := 0;
    while i < |ops|
      invariant i <= |ops| && |outs| == i && |states| == i + 1
      invariant t.Valid() && old(t.repr) <= t.repr && fresh(t.repr - old(t.repr))
      invariant forall j | 0 <= j < i :: Step(t.comparator, states[j], ops[j], outs[j], states[j + 1])
      invariant states[0] == Elements(old(t.view)) && states[i] == Elements(t.view)
    {
      var out := Perform(t, ops[i]);
      outs := outs + [out];
      states := states + [Elements(t.view)];
      i := i + 1;
    }
    ok := t.TableOk();
  }

  lemma StepKeepsDistinct<T(!new)>(hasher: (T, nat) -> nat, cmp: (T, T) -> bool,
                                   m: multiset<T>, op: Op<T>, out: Outcome<T>, m': multiset<T>)
    requires GoodHash(hasher, cmp) && Distinct(cmp, m) && Step(cmp, m, op, out, m')
    ensures Distinct(cmp, m')
  {
    match op
    case Insert(x, _, _) =>
      if out.code == 1 {
        forall y | y in m
          ensures !Match(cmp, x, y)
        {
        }
        StaysDistinct(hasher, cmp, m, x);
      }
    case Remove(_, _, _) =>
      if out.data.Some? {
        FewerStayDistinct(cmp, m', out.data.value);
      }
    case _ =>
  }

  lemma InsertDecides<T(!new)>(cmp: (T, T) -> bool, m: multiset<T>, x: T, m': multiset<T>, e: T)
    requires m' == m + multiset{x}
    ensures HasMatch(cmp, m', e) <==> Match(cmp, e, x) || HasMatch(cmp, m, e)
  {
    assert forall y :: y in m' <==> y in m || y == x;
  }

  lemma RemoveDecides<T(!new)>(hasher: (T, nat) -> nat, cmp: (T, T) -> bool, m: multiset<T>, d: T, m': multiset<T>, e: T)
    requires GoodHash(hasher, cmp) && Distinct(cmp, m) && m == m' + multiset{d}
    ensures HasMatch(cmp, m', e) <==> !Match(cmp, e, d) && HasMatch(cmp, m, e)
  {
    FewerStayDistinct(cmp, m', d);
    if Match(cmp, e, d) {
      RemovedOnlyMatch(hasher, cmp, m', d, e);
    } else {
      assert forall y :: y in m <==> y in m' || y == d;
    }
  }

  lemma RemovedOnlyMatch<T(!new)>(hasher: (T, nat) -> nat, cmp: (T, T) -> bool, m: multiset<T>, d: T, e: T)
    requires GoodHash(hasher, cmp)
    requires forall x | x in m :: !Match(cmp, d, x)
    requires Match(cmp, e, d)
    ensures !HasMatch(cmp, m, e)
  {
  }

  /** What one operation does to the matches for e. */
  lemma StepDecides<T(!new)>(hasher: (T, nat) -> nat, cmp: (T, T) -> bool,
                             m: multiset<T>, op: Op<T>, out: Outcome<T>, m': multiset<T>, e: T)
    requires GoodHash(hasher, cmp) && Distinct(cmp, m) && Step(cmp, m, op, out, m')
    ensures HasMatch(cmp, m', e) <==> Leaves(cmp, op, out, e, HasMatch(cmp, m, e))
  {
    match op
    case Insert(x, _, _) =>
      if out.code == 1 {
        InsertDecides(cmp, m, x, m', e);
      }
    case Remove(x, _, _) =>
      if out.data.Some? {
        RemoveDecides(hasher, cmp, m, out.data.value, m', e);
      }
    case _ =>
  }

  /** A table that starts empty holds a match for e exactly when its history says
      so; in particular no failed insertion or rehash loses or adds an entry. */
  lemma {:induction false} HistoryDecides<T(!new)>(hasher: (T, nat) -> nat, cmp: (T, T) -> bool,
                                 states: seq<multiset<T>>, ops: seq<Op<T>>, outs: seq<Outcome<T>>, e: T)
    requires GoodHash(hasher, cmp) && Run(cmp, states, ops, outs) && states[0] == multiset{}
    ensures Distinct(cmp, states[|ops|])
    ensures HasMatch(cmp, states[|ops|], e) <==> Present(cmp, ops, outs, e)
    decreases |ops|
  {
    if |ops| > 0 {
      var last := |ops| - 1;
      HistoryDecides(hasher, cmp, states[..last + 1], ops[..last], outs[..last], e);
      var m, m' := states[last], states[last + 1];
      assert Step(cmp, m, ops[last], outs[last], m');
      StepKeepsDistinct(hasher, cmp, m, ops[last], outs[last], m');
      StepDecides(hasher, cmp, m, ops[last], outs[last], m', e);
    }
  }

  /** A lookup finds a match iff the history says there is one. */
  lemma LookupFollowsHistory<T(!new)>(hasher: (T, nat) -> nat, cmp: (T, T) -> bool,
                                      states: seq<multiset<T>>, ops: seq<Op<T>>, outs: seq<Outcome<T>>, i: nat)
    requires GoodHash(hasher, cmp) && Run(cmp, states, ops, outs) && states[0] == multiset{}
    requires i < |ops| && ops[i].Lookup?
    ensures outs[i].Found?
    ensures outs[i].data.Some? <==> Present(cmp, ops[..i], outs[..i], ops[i].entry)
  {
    HistoryDecides(hasher, cmp, states[..i + 1], ops[..i], outs[..i], ops[i].entry);
    assert Step(cmp, states[i], ops[i], outs[i], states[i + 1]);
  }

  /** Whether the calls alone leave a match for e: the last insertion, removal or
      clearing that concerns e was an insertion. */
  predicate Wanted<T(==)>(cmp: (T, T) -> bool, ops: seq<Op<T>>, e: T) {
    if |ops| == 0 then false
    else
      var before := Wanted(cmp, ops[..|ops| - 1], e);
      match ops[|ops| - 1]
      case Insert(x, _, _) => x == e || cmp(e, x) || before
      case Remove(x, _, _) => x != e && !cmp(e, x) && before
      case Clear => false
      case _ => before
  }

  /** What an insertion that is not hindered and a removal do to the matches for e,
      whatever they return. */
  lemma StepDoes<T(!new)>(hasher: (T, nat) -> nat, cmp: (T, T) -> bool,
                          m: multiset<T>, op: Op<T>, out: Outcome<T>, m': multiset<T>, e: T)
    requires GoodHash(hasher, cmp) && Distinct(cmp, m) && Step(cmp, m, op, out, m') && Unhindered(op)
    ensures op.Insert? ==> (HasMatch(cmp, m', e) <==> op.entry == e || cmp(e, op.entry) || HasMatch(cmp, m, e))
    ensures op.Remove? ==> (HasMatch(cmp, m', e) <==> op.entry != e && !cmp(e, op.entry) && HasMatch(cmp, m, e))
  {
    StepDecides(hasher, cmp, m, op, out, m', e);
    if op.Insert? && out.code == 0 && Match(cmp, e, op.entry) {
      assert Match(cmp, e, out.matched.value);
    }
    if op.Remove? && out.data.Some? {
      assert Match(cmp, out.data.value, op.entry);
      assert Match(cmp, e, op.entry) ==> Match(cmp, e, out.data.value);
      assert Match(cmp, e, out.data.value) ==> Match(cmp, e, op.entry);
    }
  }

  /** A table that starts empty and never runs out of memory is the set that its
      calls say, whatever they have returned: a lookup finds a match iff the last
      call that concerned one was an insertion. */
  lemma {:induction false} CallsDecide<T(!new)>(hasher: (T, nat) -> nat, cmp: (T, T) -> bool,
                                                states: seq<multiset<T>>, ops: seq<Op<T>>, outs: seq<Outcome<T>>, e: T)
    requires GoodHash(hasher, cmp) && Run(cmp, states, ops, outs) && states[0] == multiset{}
    requires forall i | 0 <= i < |ops| :: Unhindered(ops[i])
    ensures HasMatch(cmp, states[|ops|], e) <==> Wanted(cmp, ops, e)
    decreases |ops|
  {
    if |ops| > 0 {
      var last := |ops| - 1;
      CallsDecide(hasher, cmp, states[..last + 1], ops[..last], outs[..last], e);
      HistoryDecides(hasher, cmp, states[..last + 1], ops[..last], outs[..last], e);
      assert Step(cmp, states[last], ops[last], outs[last], states[last + 1]);
      StepDoes(hasher, cmp, states[last], ops[last], outs[last], states[last + 1], e);
    }
  }

  /** An entry is found by itself once it has been inserted, whatever the comparator
      says of it. */
  lemma FoundByItself<T(!new)>(cmp: (T, T) -> bool, m: multiset<T>, ins: Op<T>, out: Outcome<T>, m': multiset<T>, found: Outcome<T>)
    requires ins.Insert? && Step(cmp, m, ins, out, m') && out.code == 1
    requires Step(cmp, m', Lookup(ins.entry), found, m')
    ensures found.Found? && found.data.Some?
  {
    assert Match(cmp, ins.entry, ins.entry);
  }
}
