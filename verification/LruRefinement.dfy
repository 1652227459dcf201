// The LRU cache, with its hash table, byte count, queue and dead keys, is the simple recency list.
// So what holds of runs of the list holds of runs of the cache.

module LruRefinement {
  import opened Basics
  import opened Sequences
  import opened EvictionPolicy
  import opened CacheModel
  import opened SetIsExact
  import opened CacheRuns
  import opened RecencyList

  // The rows of a table in the order of a queue; a key without a row is skipped.
  function Rows<V>(q: seq<Key>, t: Table<V>): seq<Row<V>> {
    if q == [] then []
    else if q[0] in t then [Row(q[0], t[q[0]])] + Rows(q[1..], t)
    else Rows(q[1..], t)
  }

  ghost predicate GoodLru<V>(s: State<V>) {
    Good(s) && s.evictor.Evictor? && s.evictor.policy.Lru?
  }

  ghost function List<V>(s: State<V>): seq<Row<V>>
    requires GoodLru(s)
  {
    Rows(s.evictor.queue, s.table)
  }

  // ----- reading the rows -----

  lemma {:induction false} RowsUnfold<V>(q: seq<Key>, t: Table<V>)
    requires q != [] && q[0] in t
    ensures Rows(q, t) != [] && Rows(q, t)[0] == Row(q[0], t[q[0]]) && Rows(q, t)[1..] == Rows(q[1..], t)
  {
  }

  lemma {:induction false} RowsFind<V>(q: seq<Key>, t: Table<V>, k: Key)
    ensures Find(Rows(q, t), k) == if k in q && k in t then Some(t[k]) else None
  {
    if q != [] {
      if q[0] in t {
        RowsUnfold(q, t);
      }
      RowsFind(q[1..], t, k);
      assert q == [q[0]] + q[1..];
    }
  }

  lemma {:induction false} ListFinds<V>(s: State<V>, k: Key)
    requires GoodLru(s)
    ensures Find(List(s), k) == if k in s.table then Some(s.table[k]) else None
  {
    RowsFind(s.evictor.queue, s.table, k);
    assert k in s.table ==> k in Keys(s.evictor.queue);
  }

  lemma {:induction false} RowsDistinct<V>(q: seq<Key>, t: Table<V>)
    requires NoDuplicates(q)
    ensures Distinct(Rows(q, t))
  {
    if q != [] {
      if q[0] in t {
        RowsUnfold(q, t);
      }
      RowsDistinct(q[1..], t);
      RowsFind(q[1..], t, q[0]);
    }
  }

  lemma {:induction false} RowsConcat<V>(a: seq<Key>, b: seq<Key>, t: Table<V>)
    ensures Rows(a + b, t) == Rows(a, t) + Rows(b, t)
  {
    if a == [] {
      assert a + b == b;
    } else {
      RowsConcat(a[1..], b, t);
      assert (a + b)[1..] == a[1..] + b;
    }
  }

  // Only the rows of queued keys matter.
  lemma {:induction false} RowsAgree<V>(q: seq<Key>, t: Table<V>, u: Table<V>)
    requires forall k :: k in q ==> (k in t <==> k in u) && (k in t ==> t[k] == u[k])
    ensures Rows(q, t) == Rows(q, u)
  {
    if q != [] {
      RowsAgree(q[1..], t, u);
    }
  }

  lemma {:induction false} RowsDrop<V>(q: seq<Key>, t: Table<V>, k: Key)
    ensures Drop(Rows(q, t), k) == Rows(q, t - {k})
    ensures Rows(Without(q, k), t) == Rows(q, t - {k})
  {
    if q != [] {
      if q[0] in t {
        RowsUnfold(q, t);
      }
      RowsDrop(q[1..], t, k);
    }
  }

  lemma {:induction false} RowsWeigh<V>(q: seq<Key>, t: Table<V>)
    requires NoDuplicates(q) && t.Keys <= Keys(q)
    ensures Weigh(Rows(q, t)) == Mem(t)
  {
    if q != [] {
      if q[0] in t {
        RowsUnfold(q, t);
      }
      RowsTail(q, t);
      MemDrop(t, q[0]);
      RowsWeigh(q[1..], t - {q[0]});
    } else {
      assert t == map[];
    }
  }

  // The rows after the front of the queue, with the front's row taken out of the table.
  lemma {:induction false} RowsTail<V>(q: seq<Key>, t: Table<V>)
    requires NoDuplicates(q) && q != [] && t.Keys <= Keys(q)
    ensures Rows(q[1..], t) == Rows(q[1..], t - {q[0]})
    ensures (t - {q[0]}).Keys <= Keys(q[1..]) && NoDuplicates(q[1..])
  {
    assert q == [q[0]] + q[1..];
    assert q[0] !in q[1..];
    RowsAgree(q[1..], t, t - {q[0]});
  }

  // Popping the queue until the rows fit is dropping the oldest rows until the list fits.
  lemma {:induction false} PopsAreFit<V>(q: seq<Key>, t: Table<V>, room: nat)
    requires NoDuplicates(q) && t.Keys <= Keys(q) && NO_KEY !in q
    ensures var n := Pops(t, q, room);
            Rows(q[n..], t - Keys(q[..n])) == Fit(Rows(q, t), room)
  {
    RowsWeigh(q, t);
    if q == [] || Mem(t) <= room {
      assert q[0..] == q && t - Keys(q[..0]) == t;
    } else {
      var rest, u := q[1..], t - {q[0]};
      assert NO_KEY !in rest;
      RowsTail(q, t);
      PopsAreFit(rest, u, room);
      assert Pops(t, q, room) == 1 + Pops(u, rest, room);
      RowsAfterFront(q, t, 1 + Pops(u, rest, room));
      FitSkipsFront(q, t, room);
    }
  }

  lemma RowsAfterFront<V>(q: seq<Key>, t: Table<V>, n: nat)
    requires 0 < n <= |q|
    ensures Rows(q[n..], t - Keys(q[..n])) == Rows(q[1..][n - 1..], t - {q[0]} - Keys(q[1..][..n - 1]))
  {
    PrefixSplit(t, q, n);
    assert q[n..] == q[1..][n - 1..];
  }

  lemma {:induction false} FitSkipsFront<V>(q: seq<Key>, t: Table<V>, room: nat)
    requires q != [] && Weigh(Rows(q, t)) > room
    ensures Fit(Rows(q, t), room) == Fit(Rows(q[1..], t), room)
  {
    if q[0] in t {
      RowsUnfold(q, t);
    }
  }

  // ----- one operation -----

  lemma {:induction false} TouchIsAppend<V>(q: seq<Key>, t: Table<V>, k: Key, e: Entry<V>)
    ensures Rows(Touched(Lru, q, k), t[k := e]) == Rows(q, t - {k}) + [Row(k, e)]
  {
    RowsDrop(q, t[k := e], k);
    assert t[k := e] - {k} == t - {k};
    RowsConcat(Without(q, k), [k], t[k := e]);
  }

  lemma {:induction false} SetIsListSet<V>(s: State<V>, k: Key, e: Entry<V>)
    requires GoodLru(s) && Proper(SetOp(k, e)) && Set(s, k, e).reply == Stored
    ensures GoodLru(Set(s, k, e).state)
    ensures List(Set(s, k, e).state) == Fit(Drop(List(s), k), s.maxmem - e.size) + [Row(k, e)]
  {
    StepKeepsGood(s, SetOp(k, e));
    StoredState(s, k, e);
    StoredList(s, k, e, Set(s, k, e).state);
  }

  lemma {:induction false} StoredList<V>(s: State<V>, k: Key, e: Entry<V>, t: State<V>)
    requires GoodLru(s) && GoodLru(t) && e.size <= s.maxmem
    requires var q := s.evictor.queue;
             var n := Pops(s.table - {k}, q, s.maxmem - e.size);
             && t.table == (s.table - {k} - Keys(q[..n]))[k := e]
             && t.evictor.queue == Touched(Lru, q[n..], k)
    ensures List(t) == Fit(Drop(List(s), k), s.maxmem - e.size) + [Row(k, e)]
  {
    StoredRows(s.evictor.queue, s.table, s.maxmem - e.size, k, e);
  }

  lemma {:induction false} StoredRows<V>(q: seq<Key>, t: Table<V>, room: nat, k: Key, e: Entry<V>)
    requires NoDuplicates(q) && t.Keys <= Keys(q) && NO_KEY !in q
    ensures var n := Pops(t - {k}, q, room);
            Rows(Touched(Lru, q[n..], k), (t - {k} - Keys(q[..n]))[k := e]) == Fit(Drop(Rows(q, t), k), room) + [Row(k, e)]
  {
    var others := t - {k};
    var n := Pops(others, q, room);
    var kept := others - Keys(q[..n]);
    RowsDrop(q, t, k);
    PopsAreFit(q, others, room);
    TouchIsAppend(q[n..], kept, k, e);
    assert kept - {k} == kept;
  }

  // An operation on the LRU cache does to its list what it does to a list, with the same reply.
  lemma StepIsListStep<V>(s: State<V>, op: Op<V>)
    requires GoodLru(s) && Proper(op)
    ensures var o, l := Step(s, op), ListStep(s.maxmem, List(s), op);
            o.reply == l.reply && (!o.reply.Faulty() ==> GoodLru(o.state) && List(o.state) == l.rows)
  {
    var q := s.evictor.queue;
    FaultsIff(s, op);
    if op.ResetOp? {
      StepKeepsGood(s, op);
      DrainedIsEmpty(q);
    } else if op.SpaceOp? {
      RowsWeigh(q, s.table);
    } else {
      var k := op.key;
      RowsFind(q, s.table, k);
      RowsDrop(q, s.table, k);
      match op {
        case SetOp(_, e) => SetRepliesAsList(s, k, e);
        case GetOp(_) =>
          StepKeepsGood(s, op);
          if k in s.table {
            TouchIsAppend(q, s.table, k, s.table[k]);
            assert s.table[k := s.table[k]] == s.table;
          }
        case DelOp(_) =>
          StepKeepsGood(s, op);
          MemDrop(s.table, k);
      }
    }
  }

  lemma SetRepliesAsList<V>(s: State<V>, k: Key, e: Entry<V>)
    requires GoodLru(s) && Proper(SetOp(k, e))
    ensures var o, l := Set(s, k, e), ListSet(s.maxmem, List(s), k, e);
            o.reply == l.reply && (!o.reply.Faulty() ==> GoodLru(o.state) && List(o.state) == l.rows)
  {
    ListFinds(s, k);
    SetReplyIs(s, k, e);
    if Set(s, k, e).reply == Stored {
      SetIsListSet(s, k, e);
    }
  }

  lemma SetReplyIs<V>(s: State<V>, k: Key, e: Entry<V>)
    requires GoodLru(s) && Proper(SetOp(k, e))
    ensures var o := Set(s, k, e);
            && o.reply == (if e.size - (if k in s.table then s.table[k].size else 0) > s.maxmem then TooLarge
                           else if e.size > s.maxmem then AssertFails(OnEviction)
                           else Stored)
            && (o.reply == TooLarge ==> o.state == s)
  {
    SetContract(s, k, e);
    FaultsIff(s, SetOp(k, e));
    SetIsIdeal(s, k, e);
    MemDrop(s.table, k);
  }

  // ----- runs -----

  // The replies and the final list of a run of the simple cache.
  function ListRun<V>(maxmem: u32, l: seq<Row<V>>, ops: seq<Op<V>>): (seq<Reply<V>>, seq<Row<V>>)
    decreases |ops|
  {
    if ops == [] then ([], l)
    else
      var o := ListStep(maxmem, l, ops[0]);
      if o.reply.Faulty() then ([o.reply], o.rows)
      else
        var rest := ListRun(maxmem, o.rows, ops[1..]);
        ([o.reply] + rest.0, rest.1)
  }

  // Every run of the LRU cache answers as the simple list does, and ends in its list.
  lemma {:induction false} LruCacheIsRecencyList<V>(s: State<V>, ops: seq<Op<V>>)
    requires GoodLru(s) && AllProper(ops)
    ensures var t, l := Run(s, ops), ListRun(s.maxmem, List(s), ops);
            t.replies == l.0 && (!t.Crashed() ==> GoodLru(t.state) && List(t.state) == l.1)
    decreases |ops|
  {
    if ops != [] {
      StepIsListStep(s, ops[0]);
      if !Step(s, ops[0]).reply.Faulty() {
        StepKeepsGood(s, ops[0]);
        LruCacheIsRecencyList(Step(s, ops[0]).state, ops[1..]);
      }
    }
  }

  // Two runs whose gets hit in both caches or miss in both.
  predicate GetsAgree<V>(ops: seq<Op<V>>, rs: seq<Reply<V>>, us: seq<Reply<V>>)
    decreases |ops|
  {
    ops != [] ==>
      && rs != [] && us != []
      && (ops[0].GetOp? ==> (rs[0].Hit? <==> us[0].Hit?))
      && GetsAgree(ops[1..], rs[1..], us[1..])
  }

  // A run that both caches see alike, of values that fit the smaller.
  ghost predicate SeenAlike<V>(a: State<V>, b: State<V>, ops: seq<Op<V>>) {
    AllProper(ops) && AllWithin(ops, a.maxmem) && GetsAgree(ops, Run(a, ops).replies, Run(b, ops).replies)
  }

  // Both caches are LRU caches, the second no smaller.
  ghost predicate Pair<V>(a: State<V>, b: State<V>) {
    GoodLru(a) && GoodLru(b) && a.maxmem <= b.maxmem
  }

  ghost predicate Included<V>(a: State<V>, b: State<V>) {
    Pair(a, b) && Suffix(List(a), List(b))
  }

  // Capacity inclusion: through any run that both caches see alike, the smaller cache's list stays
  // the most recent part of the larger's.
  lemma {:induction false} CapacityInclusion<V>(a: State<V>, b: State<V>, ops: seq<Op<V>>)
    requires Included(a, b) && SeenAlike(a, b, ops)
    ensures !Run(a, ops).Crashed() && !Run(b, ops).Crashed()
    ensures Included(Run(a, ops).state, Run(b, ops).state)
    decreases |ops|
  {
    if ops != [] {
      FaultsIff(a, ops[0]);
      FaultsIff(b, ops[0]);
      RunUnfold(a, ops);
      RunUnfold(b, ops);
      InclusionStep(a, b, ops[0]);
      StepKeepsGood(a, ops[0]);
      CapacityInclusion(Step(a, ops[0]).state, Step(b, ops[0]).state, ops[1..]);
    }
  }

  lemma InclusionStep<V>(a: State<V>, b: State<V>, op: Op<V>)
    requires Included(a, b) && Proper(op) && Within(op, a.maxmem)
    requires op.GetOp? ==> (Step(a, op).reply.Hit? <==> Step(b, op).reply.Hit?)
    ensures !Step(a, op).reply.Faulty() && !Step(b, op).reply.Faulty()
    ensures Included(Step(a, op).state, Step(b, op).state)
  {
    FittingStep(a, op);
    FittingStep(b, op);
    StepKeepsSuffix(a.maxmem, List(a), b.maxmem, List(b), op);
  }

  lemma {:induction false} FittingStep<V>(s: State<V>, op: Op<V>)
    requires GoodLru(s) && Proper(op) && Within(op, s.maxmem)
    ensures var o := Step(s, op);
            && !o.reply.Faulty() && GoodLru(o.state) && o.state.maxmem == s.maxmem
            && List(o.state) == ListStep(s.maxmem, List(s), op).rows && Distinct(List(s))
            && (op.GetOp? ==> (o.reply.Hit? <==> Find(List(s), op.key).Some?))
  {
    FaultsIff(s, op);
    StepKeepsGood(s, op);
    StepIsListStep(s, op);
    RowsDistinct(s.evictor.queue, s.table);
  }

  // The rows of the smaller cache are in the larger, in the same order, and from each of them on
  // the larger has no more additional bytes than capacity.
  ghost predicate CoveredBy<V>(a: State<V>, b: State<V>) {
    Pair(a, b) && Covers(List(a), List(b), b.maxmem - a.maxmem)
  }

  lemma CoveredTables<V>(a: State<V>, b: State<V>)
    requires CoveredBy(a, b)
    ensures SubMap(a.table, b.table)
  {
    forall k | k in a.table ensures k in b.table && b.table[k] == a.table[k] {
      ListFinds(a, k);
      ListFinds(b, k);
      RowsDistinct(b.evictor.queue, b.table);
      CoversInOrder(List(a), List(b), b.maxmem - a.maxmem);
      FindInOrder(List(a), List(b), k);
    }
  }

  lemma {:induction false} IncludedTables<V>(a: State<V>, b: State<V>, ops: seq<Op<V>>)
    requires Included(a, b) && SeenAlike(a, b, ops)
    ensures SubMap(Run(a, ops).state.table, Run(b, ops).state.table)
  {
    var s, t := Run(a, ops).state, Run(b, ops).state;
    CapacityInclusion(a, b, ops);
    SuffixIsCovered(List(s), List(t), t.maxmem - s.maxmem);
    CoveredTables(s, t);
  }

  // So of two new caches fed such a run, the larger has all that the smaller has.
  lemma {:induction false} LargerCacheLosesNothing<V>(m: u32, n: u32, ops: seq<Op<V>>)
    requires m <= n && 2 * n <= INT_MAX
    requires SeenAlike(Init<V>(m, Evictor(Lru, [])), Init<V>(n, Evictor(Lru, [])), ops)
    ensures SubMap(Run(Init<V>(m, Evictor(Lru, [])), ops).state.table, Run(Init<V>(n, Evictor(Lru, [])), ops).state.table)
  {
    IncludedTables(Init<V>(m, Evictor(Lru, [])), Init<V>(n, Evictor(Lru, [])), ops);
  }

  // ----- gets that hit in the larger cache only -----

  // The larger cache has every row of the smaller, with equal values, after each such run.
  ghost predicate NeverLoses<V(!new)>(a: State<V>, b: State<V>) {
    forall ops: seq<Op<V>> :: SeenAlike(a, b, ops) ==> SubMap(Run(a, ops).state.table, Run(b, ops).state.table)
  }

  lemma CoveredStep<V>(a: State<V>, b: State<V>, op: Op<V>)
    requires CoveredBy(a, b) && Proper(op) && Within(op, a.maxmem)
    requires op.GetOp? ==> (Step(a, op).reply.Hit? <==> Step(b, op).reply.Hit?)
    ensures !Step(a, op).reply.Faulty() && !Step(b, op).reply.Faulty()
    ensures CoveredBy(Step(a, op).state, Step(b, op).state)
  {
    FittingStep(a, op);
    FittingStep(b, op);
    StepKeepsCovers(a.maxmem, List(a), b.maxmem, List(b), op);
  }

  lemma {:induction false} CoveredRun<V>(a: State<V>, b: State<V>, ops: seq<Op<V>>)
    requires CoveredBy(a, b) && SeenAlike(a, b, ops)
    ensures CoveredBy(Run(a, ops).state, Run(b, ops).state)
    decreases |ops|
  {
    if ops != [] {
      FaultsIff(a, ops[0]);
      FaultsIff(b, ops[0]);
      RunUnfold(a, ops);
      RunUnfold(b, ops);
      CoveredStep(a, b, ops[0]);
      StepKeepsGood(a, ops[0]);
      CoveredRun(Step(a, ops[0]).state, Step(b, ops[0]).state, ops[1..]);
    }
  }

  function LongestKey(q: seq<Key>): nat {
    if q == [] then 0 else if |q[0]| > LongestKey(q[1..]) then |q[0]| else LongestKey(q[1..])
  }

  lemma {:induction false} LongestIsLongest(q: seq<Key>)
    ensures forall k :: k in q ==> |k| <= LongestKey(q)
  {
    if q != [] {
      LongestIsLongest(q[1..]);
      assert q == [q[0]] + q[1..];
    }
  }

  lemma FreshKey(p: seq<Key>, q: seq<Key>) returns (k: Key)
    ensures k != NO_KEY && k !in p && k !in q
  {
    LongestIsLongest(p);
    LongestIsLongest(q);
    k := seq(1 + LongestKey(p) + LongestKey(q), _ => 'x');
  }

  // Where the covering fails, one more value makes the larger cache lose a row of the smaller.
  lemma LosesByOneSet<V>(a: State<V>, b: State<V>) returns (op: Op<V>)
    requires Pair(a, b) && InOrder(List(a), List(b)) && !CoveredBy(a, b)
    ensures op.SetOp? && Proper(op) && Within(op, a.maxmem)
    ensures !SubMap(Step(a, op).state.table, Step(b, op).state.table)
  {
    var p, q := a.evictor.queue, b.evictor.queue;
    RowsDistinct(p, a.table);
    RowsDistinct(q, b.table);
    var k := UncoveredRow(List(a), List(b), b.maxmem - a.maxmem);
    FindInOrder(List(a), List(b), k);
    RowsWeigh(p, a.table);
    FromWeighs(List(a), k);
    var name := FreshKey(p, q);
    RowsFind(p, a.table, name);
    RowsFind(q, b.table, name);
    var added := Row(name, Entry(Find(List(a), k).value.data, a.maxmem - Weigh(From(List(a), k))));
    op := SetOp(name, added.entry);
    LosesRow(a.maxmem, List(a), b.maxmem, List(b), k, added);
    RowMissing(a, b, op, k);
  }

  lemma {:induction false} RowMissing<V>(a: State<V>, b: State<V>, op: Op<V>, k: Key)
    requires Pair(a, b) && op.SetOp? && Proper(op) && Within(op, a.maxmem)
    requires Find(ListStep(a.maxmem, List(a), op).rows, k).Some?
    requires Find(ListStep(b.maxmem, List(b), op).rows, k).None?
    ensures !SubMap(Step(a, op).state.table, Step(b, op).state.table)
  {
    var s, t := Step(a, op).state, Step(b, op).state;
    FaultsIff(a, op);
    FaultsIff(b, op);
    StepIsListStep(a, op);
    StepIsListStep(b, op);
    ListFinds(s, k);
    ListFinds(t, k);
  }

  // Of two caches with their common rows in the same order, the larger never loses a row of the
  // smaller exactly when, from each common row on, it has no more additional bytes than capacity.
  lemma NeverLosesIff<V(!new)>(a: State<V>, b: State<V>)
    requires Pair(a, b) && InOrder(List(a), List(b))
    ensures NeverLoses(a, b) <==> CoveredBy(a, b)
  {
    if CoveredBy(a, b) {
      forall ops: seq<Op<V>> | SeenAlike(a, b, ops)
        ensures SubMap(Run(a, ops).state.table, Run(b, ops).state.table)
      {
        CoveredRun(a, b, ops);
        CoveredTables(Run(a, ops).state, Run(b, ops).state);
      }
    } else {
      var op := LosesByOneSet(a, b);
      OneSetSeenAlike(a, b, op);
      assert SeenAlike(a, b, [op]);
    }
  }

  lemma {:induction false} OneSetSeenAlike<V>(a: State<V>, b: State<V>, op: Op<V>)
    requires Pair(a, b) && op.SetOp? && Proper(op) && Within(op, a.maxmem)
    ensures SeenAlike(a, b, [op])
    ensures Run(a, [op]).state == Step(a, op).state && Run(b, [op]).state == Step(b, op).state
  {
    FaultsIff(a, op);
    FaultsIff(b, op);
    assert [op][1..] == [];
  }

  // The condition on gets is needed. After a get that hits in the larger cache only, the larger
  // goes on to hold all that the smaller holds, through every run that both see alike, exactly when
  // the smaller is empty or the row got is no larger than the difference in capacity.
  lemma UnevenGetKeepsInclusionIff<V(!new)>(a: State<V>, b: State<V>, k: Key)
    requires Included(a, b) && k !in a.table && k in b.table
    ensures NeverLoses(Step(a, GetOp(k)).state, Step(b, GetOp(k)).state) <==>
            a.table == map[] || b.table[k].size <= b.maxmem - a.maxmem
  {
    UnevenGetCovered(a, b, k);
    NeverLosesIff(Step(a, GetOp(k)).state, Step(b, GetOp(k)).state);
  }

  lemma {:induction false} UnevenGetCovered<V>(a: State<V>, b: State<V>, k: Key)
    requires Included(a, b) && k !in a.table && k in b.table
    ensures var s, t := Step(a, GetOp(k)).state, Step(b, GetOp(k)).state;
            && Pair(s, t) && InOrder(List(s), List(t))
            && (CoveredBy(s, t) <==> a.table == map[] || b.table[k].size <= b.maxmem - a.maxmem)
  {
    UnevenGetLists(a, b, k);
    CoversIffFits(a, b, Step(b, GetOp(k)).state, Row(k, b.table[k]));
  }

  lemma {:induction false} CoversIffFits<V>(a: State<V>, b: State<V>, t: State<V>, got: Row<V>)
    requires Included(a, b) && Pair(a, t) && t.maxmem == b.maxmem
    requires List(t) == Drop(List(b), got.key) + [got] && Distinct(List(b))
    requires Find(List(a), got.key).None? && Find(List(b), got.key) == Some(got.entry)
    ensures InOrder(List(a), List(t))
    ensures CoveredBy(a, t) <==> List(a) == [] || got.entry.size <= b.maxmem - a.maxmem
  {
    UnevenGetCoversIff(List(a), List(b), got, b.maxmem - a.maxmem);
  }

  lemma {:induction false} UnevenGetLists<V>(a: State<V>, b: State<V>, k: Key)
    requires Included(a, b) && k !in a.table && k in b.table
    ensures var s, t := Step(a, GetOp(k)).state, Step(b, GetOp(k)).state;
            && Pair(s, t) && s == a && t.maxmem == b.maxmem
            && List(t) == Drop(List(b), k) + [Row(k, b.table[k])]
            && Find(List(a), k).None? && Find(List(b), k) == Some(b.table[k]) && Distinct(List(b))
            && (List(a) == [] <==> a.table == map[])
  {
    var op: Op<V> := GetOp(k);
    StepKeepsGood(b, op);
    StepIsListStep(b, op);
    ListFinds(a, k);
    ListFinds(b, k);
    RowsDistinct(b.evictor.queue, b.table);
    if a.table == map[] {
      NoRows(a.evictor.queue, a.table);
    } else {
      var j :| j in a.table;
      ListFinds(a, j);
    }
  }

  // The list of the smaller cache itself stays a suffix only if it is empty.
  lemma UnevenGetKeepsListSuffixIff<V>(a: State<V>, b: State<V>, k: Key)
    requires Included(a, b) && k !in a.table && k in b.table
    ensures Included(Step(a, GetOp(k)).state, Step(b, GetOp(k)).state) <==> a.table == map[]
  {
    UnevenGetLists(a, b, k);
    UnevenGetKeepsSuffixIff(a.maxmem, List(a), b.maxmem, List(b), k);
  }

  // For example: of caches of 2 and 3 bytes the larger loses "j", which the smaller keeps, after a
  // get of "k" that hits in the larger only.
  lemma UnevenGetLosesRow<V>(v: V)
    ensures var ops := UnevenRun(v);
            && "j" in Run(Init<V>(2, Evictor(Lru, [])), ops).state.table
            && "j" !in Run(Init<V>(3, Evictor(Lru, [])), ops).state.table
  {
    var a, b := Init<V>(2, Evictor(Lru, [])), Init<V>(3, Evictor(Lru, []));
    UnevenListRuns(v);
    RunEndsInList(a, UnevenRun(v), "j");
    RunEndsInList(b, UnevenRun(v), "j");
  }

  function UnevenRun<V>(v: V): seq<Op<V>> {
    [SetOp("k", Entry(v, 2)), SetOp("j", Entry(v, 1)), GetOp("k"), SetOp("l", Entry(v, 1))]
  }

  predicate UnevenRows<V>(k: Row<V>, j: Row<V>, l: Row<V>) {
    && k.key != j.key && l.key != j.key && l.key != k.key
    && k.entry.size == 2 && j.entry.size == 1 && l.entry.size == 1
  }

  lemma {:induction false} SmallerSteps<V>(k: Row<V>, j: Row<V>, l: Row<V>)
    requires UnevenRows(k, j, l)
    ensures ListSet(2, [], k.key, k.entry) == ListOutcome(Stored, [k])
    ensures ListSet(2, [k], j.key, j.entry) == ListOutcome(Stored, [j])
    ensures ListStep(2, [j], GetOp(k.key)) == ListOutcome(Miss, [j])
    ensures ListSet(2, [j], l.key, l.entry) == ListOutcome(Stored, [j, l])
  {
    OneRow(k, j.key, 1);
    OneRow(j, k.key, 1);
    OneRow(j, l.key, 1);
  }

  lemma {:induction false} LargerSteps<V>(k: Row<V>, j: Row<V>, l: Row<V>)
    requires UnevenRows(k, j, l)
    ensures ListSet(3, [], k.key, k.entry) == ListOutcome(Stored, [k])
    ensures ListSet(3, [k], j.key, j.entry) == ListOutcome(Stored, [k, j])
    ensures ListStep(3, [k, j], GetOp(k.key)) == ListOutcome(Hit(k.entry.data, 2), [j, k])
    ensures ListSet(3, [j, k], l.key, l.entry) == ListOutcome(Stored, [k, l])
    ensures Find([k, l], j.key).None?
  {
    OneRow(k, j.key, 2);
    TwoRows(k, j, l.key, 2);
    TwoRows(j, k, l.key, 2);
    TwoRows(k, l, j.key, 2);
  }

  lemma {:induction false} UnevenListRuns<V>(v: V)
    ensures Find(ListRun(2, [], UnevenRun(v)).1, "j").Some?
    ensures Find(ListRun(3, [], UnevenRun(v)).1, "j").None?
  {
    var k, j, l := Row("k", Entry(v, 2)), Row("j", Entry(v, 1)), Row("l", Entry(v, 1));
    assert "k"[0] != "j"[0] && "l"[0] != "j"[0] && "l"[0] != "k"[0];
    SmallerListRun(k, j, l, UnevenRun(v));
    LargerListRun(k, j, l, UnevenRun(v));
  }

  lemma {:induction false} SmallerListRun<V>(k: Row<V>, j: Row<V>, l: Row<V>, ops: seq<Op<V>>)
    requires UnevenRows(k, j, l)
    requires ops == [SetOp(k.key, k.entry), SetOp(j.key, j.entry), GetOp(k.key), SetOp(l.key, l.entry)]
    ensures Find(ListRun(2, [], ops).1, j.key).Some?
  {
    SmallerSteps(k, j, l);
    FourSteps(2, ops, [k], [j], [j], [j, l]);
  }

  lemma {:induction false} LargerListRun<V>(k: Row<V>, j: Row<V>, l: Row<V>, ops: seq<Op<V>>)
    requires UnevenRows(k, j, l)
    requires ops == [SetOp(k.key, k.entry), SetOp(j.key, j.entry), GetOp(k.key), SetOp(l.key, l.entry)]
    ensures Find(ListRun(3, [], ops).1, j.key).None?
  {
    LargerSteps(k, j, l);
    FourSteps(3, ops, [k], [k, j], [j, k], [k, l]);
  }

  lemma {:induction false} FourSteps<V>(m: u32, ops: seq<Op<V>>, a: seq<Row<V>>, b: seq<Row<V>>, c: seq<Row<V>>, d: seq<Row<V>>)
    requires |ops| == 4 && ListStep(m, [], ops[0]).rows == a && ListStep(m, a, ops[1]).rows == b
    requires ListStep(m, b, ops[2]).rows == c && ListStep(m, c, ops[3]).rows == d
    requires !ListStep(m, [], ops[0]).reply.Faulty() && !ListStep(m, a, ops[1]).reply.Faulty()
    requires !ListStep(m, b, ops[2]).reply.Faulty()
    ensures ListRun(m, [], ops).1 == d
  {
    var one, two, three := ops[1..], ops[2..], ops[3..];
    assert one[1..] == two && two[1..] == three && three[1..] == [];
    assert ListRun(m, c, three).1 == d;
    assert ListRun(m, b, two).1 == d;
    assert ListRun(m, a, one).1 == d;
  }

  lemma {:induction false} OneRow<V>(x: Row<V>, k: Key, room: nat)
    requires k != x.key
    ensures Drop([x], k) == [x] && Find([x], k).None? && Weigh([x]) == x.entry.size
    ensures Fit([x], room) == if x.entry.size <= room then [x] else []
  {
    var none: seq<Row<V>> := [];
    assert [x][1..] == none && Weigh(none) == 0;
    assert Fit(none, room) == none && Drop(none, k) == none && Find(none, k).None?;
  }

  lemma {:induction false} TwoRows<V>(x: Row<V>, y: Row<V>, k: Key, room: nat)
    requires x.key != y.key && x.key != k && y.key != k && y.entry.size <= room < x.entry.size + y.entry.size
    ensures Drop([x, y], x.key) == [y] && Find([x, y], x.key) == Some(x.entry)
    ensures Drop([x, y], k) == [x, y] && Find([x, y], k).None? && Fit([x, y], room) == [y]
  {
    OneRow(y, k, room);
    OneRow(y, x.key, room);
    assert [x, y][1..] == [y];
    assert Weigh([x, y]) == x.entry.size + Weigh([y]);
    assert Drop([x, y], k) == [x] + Drop([y], k);
  }

  lemma {:induction false} RunEndsInList<V>(s: State<V>, ops: seq<Op<V>>, k: Key)
    requires GoodLru(s) && AllProper(ops) && AllWithin(ops, s.maxmem)
    ensures k in Run(s, ops).state.table <==> Find(ListRun(s.maxmem, List(s), ops).1, k).Some?
  {
    var t := Run(s, ops).state;
    FittingRunNeverFaults(s, ops);
    LruCacheIsRecencyList(s, ops);
    ListFinds(t, k);
  }

  lemma {:induction false} NoRows<V>(q: seq<Key>, t: Table<V>)
    requires t == map[]
    ensures Rows(q, t) == []
  {
    if q != [] {
      NoRows(q[1..], t);
    }
  }

  // ----- when a key is in the cache -----

  // Following a key through a run, from its operations and replies alone.
  ghost function FollowRun<V>(maxmem: int, f: Follower, key: Key, ops: seq<Op<V>>, rs: seq<Reply<V>>): Follower
    decreases |ops|
  {
    if ops == [] || rs == [] then f
    else FollowRun(maxmem, Followed(maxmem, f, key, ops[0], rs[0]), key, ops[1..], rs[1..])
  }

  lemma {:induction false} RunIsFollowed<V>(s: State<V>, ops: seq<Op<V>>, key: Key)
    requires GoodLru(s) && AllProper(ops) && !Run(s, ops).Crashed()
    ensures var t := Run(s, ops);
            && GoodLru(t.state)
            && Seat(List(t.state), key) == FollowRun(s.maxmem, Seat(List(s), key), key, ops, t.replies)
    decreases |ops|
  {
    if ops != [] {
      var o := Step(s, ops[0]);
      RunTail(s, ops);
      StepIsListStep(s, ops[0]);
      StepKeepsGood(s, ops[0]);
      RowsDistinct(s.evictor.queue, s.table);
      RowsWeigh(s.evictor.queue, s.table);
      StepIsFollowed(s.maxmem, List(s), ops[0], key);
      RunIsFollowed(o.state, ops[1..], key);
      RunUnfold(s, ops);
    }
  }

  // A key that was not in the LRU cache before a run is in it afterwards exactly when the run has
  // touched it, nothing has removed it since, and at no touch since have its size and the sizes of
  // the others touched since then been over the capacity together.
  lemma {:induction false} ResidentIff<V>(s: State<V>, ops: seq<Op<V>>, key: Key)
    requires GoodLru(s) && key !in s.table && AllProper(ops) && !Run(s, ops).Crashed()
    ensures var t := Run(s, ops);
            var f := FollowRun(s.maxmem, Gone, key, ops, t.replies);
            && (key in t.state.table <==> f.Held?)
            && (f.Held? ==> t.state.table[key].size == f.size)
  {
    var t := Run(s, ops).state;
    RunIsFollowed(s, ops, key);
    ListFinds(s, key);
    SeatIsFind(List(s), key);
    ListFinds(t, key);
    SeatIsFind(List(t), key);
  }

  // ----- the working-set guarantee -----

  function WatchRun<V>(w: Follower, key: Key, ops: seq<Op<V>>, rs: seq<Reply<V>>): Follower
    decreases |ops|
  {
    if ops == [] || rs == [] then w
    else WatchRun(Watched(w, key, ops[0], rs[0]), key, ops[1..], rs[1..])
  }

  lemma {:induction false} RunKeepsGuarantee<V>(maxmem: int, f: Follower, w: Follower, key: Key, ops: seq<Op<V>>, rs: seq<Reply<V>>)
    requires Guaranteed(maxmem, f, w)
    ensures Guaranteed(maxmem, FollowRun(maxmem, f, key, ops, rs), WatchRun(w, key, ops, rs))
    decreases |ops|
  {
    if ops != [] && rs != [] {
      StepKeepsGuarantee(maxmem, f, w, ops[0], key, rs[0]);
      RunKeepsGuarantee(maxmem, Followed(maxmem, f, key, ops[0], rs[0]), Watched(w, key, ops[0], rs[0]), key, ops[1..], rs[1..]);
    }
  }

  // In any run of an LRU cache a stored key is still there, at its size, if that size and the
  // largest sizes of the other keys touched since its own last touch together fit the cache.
  lemma {:induction false} WorkingSetStays<V>(s: State<V>, ops: seq<Op<V>>, key: Key)
    requires GoodLru(s) && AllProper(ops) && !Run(s, ops).Crashed()
    ensures var t := Run(s, ops);
            var w := WatchRun(Gone, key, ops, t.replies);
            FitsIn(w, s.maxmem) ==> key in t.state.table && t.state.table[key].size == w.size
  {
    var t := Run(s, ops);
    RunIsFollowed(s, ops, key);
    RunKeepsGuarantee(s.maxmem, Seat(List(s), key), Gone, key, ops, t.replies);
    SeatIsFind(List(t.state), key);
    ListFinds(t.state, key);
  }
}
