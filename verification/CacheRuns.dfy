// What every operation keeps, and what holds over whole runs, under any eviction policy.

module CacheRuns {
  import opened Basics
  import opened Sequences
  import opened EvictionPolicy
  import opened CacheModel
  import opened SetIsExact

  // ----- the invariant -----

  // Every row can be reached by evictions; LRU lists no key twice.
  ghost predicate Covered(keys: set<Key>, ev: EvictorModel) {
    ev.Evictor? ==>
      && keys <= Keys(ev.queue)
      && NO_KEY !in ev.queue
      && (ev.policy.Lru? ==> NoDuplicates(ev.queue))
  }

  ghost predicate Good<V>(s: State<V>) {
    && Conserved(s)
    && 2 * s.maxmem <= INT_MAX
    && Covered(s.table.Keys, s.evictor)
  }

  // What the cache asks of its callers: a size is within int, and "" is not a key to store.
  predicate ProperSize<V>(op: Op<V>) {
    op.SetOp? ==> op.entry.size <= INT_MAX
  }

  predicate ProperKey<V>(op: Op<V>) {
    op.SetOp? ==> op.key != NO_KEY
  }

  predicate Proper<V>(op: Op<V>) {
    ProperKey(op) && ProperSize(op)
  }

  // No value larger than a bound.
  predicate Within<V>(op: Op<V>, size: u32) {
    op.SetOp? ==> op.entry.size <= size
  }

  predicate AllWithin<V>(ops: seq<Op<V>>, size: u32) {
    forall i :: 0 <= i < |ops| ==> Within(ops[i], size)
  }

  predicate AllProper<V>(ops: seq<Op<V>>) {
    forall i :: 0 <= i < |ops| ==> Proper(ops[i])
  }

  lemma TouchKeepsCovered(keys: set<Key>, ev: EvictorModel, k: Key)
    requires Covered(keys, ev) && k != NO_KEY
    ensures Covered(keys + {k}, ev.Touch(k))
  {
    if ev.Evictor? {
      TouchContract(ev.policy, ev.queue, k);
      assert NO_KEY !in Keys(Touched(ev.policy, ev.queue, k));
    }
  }

  lemma PopsKeepCovered(keys: set<Key>, ev: EvictorModel, n: nat)
    requires Covered(keys, ev) && ev.Evictor? && n <= |ev.queue|
    ensures Covered(keys - Keys(ev.queue[..n]), ev.(queue := ev.queue[n..]))
  {
    assert ev.queue == ev.queue[..n] + ev.queue[n..];
  }

  lemma SetKeepsGood<V>(s: State<V>, key: Key, e: Entry<V>)
    requires Good(s) && Proper(SetOp(key, e)) && Set(s, key, e).reply == Stored
    ensures Good(Set(s, key, e).state)
  {
    var t := Set(s, key, e).state;
    if s.evictor.Evictor? {
      var q := s.evictor.queue;
      var n := Pops(s.table - {key}, q, s.maxmem - e.size);
      EvictionIsExact(s, key, e);
      PopsKeepCovered(s.table.Keys, s.evictor, n);
      TouchKeepsCovered(s.table.Keys - Keys(q[..n]), s.evictor.(queue := q[n..]), key);
    } else {
      SetIsIdeal(s, key, e);
      MemUpdate(s.table - {key}, key, e);
      assert s.table - {key} - {key} == s.table - {key};
    }
  }

  lemma {:induction false} DrainedIsEmpty(q: seq<Key>)
    ensures Drained(q) == [] <==> forall i :: 0 <= i < |q| - 1 ==> q[i] != NO_KEY
  {
    if q != [] && q[0] != NO_KEY {
      DrainedIsEmpty(q[1..]);
      assert forall i :: 0 < i < |q| ==> q[i] == q[1..][i - 1];
      assert forall i :: 0 <= i < |q| - 1 ==> q[1..][i] == q[i + 1];
    }
  }

  // Every operation that returns keeps the invariant, the capacity and the policy.
  lemma StepKeepsGood<V>(s: State<V>, op: Op<V>)
    requires Good(s) && Proper(op) && !Step(s, op).reply.Faulty()
    ensures var t := Step(s, op).state;
            && Good(t) && t.maxmem == s.maxmem
            && t.evictor.Evictor? == s.evictor.Evictor?
            && (s.evictor.Evictor? ==> t.evictor.policy == s.evictor.policy)
  {
    match op {
      case SetOp(key, e) =>
        SetIsIdeal(s, key, e);
        SetFaultsIff(s, key, e);
        if Set(s, key, e).reply == Stored {
          SetKeepsGood(s, key, e);
        }
      case GetOp(key) =>
        if key in s.table && s.evictor.Evictor? {
          assert key in s.evictor.queue;
          TouchKeepsCovered(s.table.Keys, s.evictor, key);
          assert s.table.Keys + {key} == s.table.Keys;
        }
      case DelOp(key) =>
        MemDrop(s.table, key);
      case ResetOp =>
        if s.evictor.Evictor? {
          DrainedIsEmpty(s.evictor.queue);
        }
      case SpaceOp =>
    }
  }

  // ----- what set promises, and where it fails to -----

  ghost predicate OverwritesPastGuard<V>(s: State<V>, op: Op<V>) {
    && op.SetOp? && s.evictor.Evictor? && op.key in s.table
    && op.entry.size - s.table[op.key].size <= s.maxmem < op.entry.size
  }

  // From a good state an operation faults exactly when it overwrites a row by a value larger than
  // the whole cache, but by no more than the capacity larger than the row; it then fails the
  // assertion of the eviction loop.
  lemma FaultsIff<V>(s: State<V>, op: Op<V>)
    requires Good(s) && Proper(op)
    ensures Step(s, op).reply.Faulty() <==> OverwritesPastGuard(s, op)
    ensures Step(s, op).reply.Faulty() ==> Step(s, op).reply == AssertFails(OnEviction)
  {
    match op {
      case SetOp(key, e) =>
        SetFaultsIff(s, key, e);
        MemDrop(s.table, key);
        if s.evictor.Evictor? {
          EvictableAll(s.evictor.queue);
          assert s.table - {key} - Keys(Evictable(s.evictor.queue)) == map[];
        }
      case GetOp(key) =>
      case DelOp(key) => MemDrop(s.table, key);
      case ResetOp =>
      case SpaceOp =>
    }
  }

  lemma {:induction false} EvictableAll(q: seq<Key>)
    requires NO_KEY !in q
    ensures Evictable(q) == q
  {
    if q != [] {
      EvictableAll(q[1..]);
    }
  }

  // With an evictor everything that fits the cache is stored; without one, what fits beside the
  // other rows. A refused value changes nothing.
  lemma SetContract<V>(s: State<V>, key: Key, e: Entry<V>)
    requires Good(s) && Proper(SetOp(key, e))
    ensures var o := Set(s, key, e);
            && (s.evictor.Evictor? ==> (o.reply == Stored <==> e.size <= s.maxmem))
            && (s.evictor.NoEvictor? ==> (o.reply == Stored <==> e.size + Mem(s.table - {key}) <= s.maxmem))
            && (!o.reply.Faulty() && o.reply != Stored ==> o.state == s)
  {
    SetIsIdeal(s, key, e);
    FaultsIff(s, SetOp(key, e));
    SetFaultsIff(s, key, e);
    MemDrop(s.table, key);
  }

  // For example: a cache of 4 bytes, one byte under a key, and 5 bytes to overwrite it.
  lemma OverwriteFailsAssertion<V>(v: V)
    ensures var s := Init<V>(4, Evictor(Lru, []));
            Run(s, [SetOp("k", Entry(v, 1)), SetOp("k", Entry(v, 5))]).replies == [Stored, AssertFails(OnEviction)]
  {
    var s := Init<V>(4, Evictor(Lru, []));
    var one, five := SetOp("k", Entry(v, 1)), SetOp("k", Entry(v, 5));
    SetContract(s, "k", Entry(v, 1));
    FaultsIff(s, one);
    StoredState(s, "k", Entry(v, 1));
    StepKeepsGood(s, one);
    FaultsIff(Step(s, one).state, five);
    assert [one, five][1..] == [five];
  }

  function BlankStored<V>(p: Policy, v: V): State<V> {
    State(4, 1, map[NO_KEY := Entry(v, 1)], Evictor(p, [NO_KEY]))
  }

  lemma {:induction false} FirstIsStored<V>(maxmem: u32, p: Policy, key: Key, e: Entry<V>)
    requires e.size <= maxmem <= INT_MAX
    ensures Set(Init<V>(maxmem, Evictor(p, [])), key, e) ==
            Outcome(Stored, State(maxmem, e.size, map[key := e], Evictor(p, [key])))
  {
    var s := Init<V>(maxmem, Evictor(p, []));
    assert SizeChange(s, key, e.size) == e.size;
    assert Set(s, key, e) == MakeRoom(s, key, e, e.size) == Insert(s, key, e);
    assert Touched(p, [], key) == [key];
  }

  // Two values as large as the cache overflow the sum where its capacity is over half of int.
  lemma FullCacheOverflows<V>(maxmem: u32, v: V)
    requires maxmem <= INT_MAX < 2 * maxmem
    ensures var s := Init<V>(maxmem, Evictor(Lru, []));
            Run(s, [SetOp("j", Entry(v, maxmem)), SetOp("k", Entry(v, maxmem))]).replies == [Stored, SignedOverflow]
  {
    var s, e := Init<V>(maxmem, Evictor(Lru, [])), Entry(v, maxmem);
    var ops := [SetOp("j", e), SetOp("k", e)];
    var t := State(maxmem, maxmem, map["j" := e], Evictor(Lru, ["j"]));
    SumOverflows(maxmem, v);
    assert ops[1..] == [SetOp("k", e)];
    FirstIsStored(maxmem, Lru, "j", e);
  }

  // A size beyond int goes unnoticed: the byte count is 0, and both rows are in the table.
  lemma WideSizeBreaksCount<V>(v: V)
    ensures var j, k := Entry(v, 1), Entry(v, TWO_32 - 1);
            var t := Run(Init<V>(4, Evictor(Lru, [])), [SetOp("j", j), SetOp("k", k)]);
            t.replies == [Stored, Stored] && t.state.cur == 0 && t.state.table == map["j" := j, "k" := k]
  {
    var s, j, k := Init<V>(4, Evictor(Lru, [])), Entry(v, 1), Entry(v, TWO_32 - 1);
    var ops := [SetOp("j", j), SetOp("k", k)];
    var t := State(4, 1, map["j" := j], Evictor(Lru, ["j"]));
    assert ops[1..] == [SetOp("k", k)];
    FirstIsStored(4, Lru, "j", j);
    assert SizeChange(t, "k", TWO_32 - 1) == -1;
    assert Set(t, "k", k) == MakeRoom(t, "k", k, -1) == Insert(t, "k", k);
    assert t.table["k" := k] == map["j" := j, "k" := k];
    assert Run(t, [SetOp("k", k)]) == Trace([Stored], Set(t, "k", k).state);
  }

  // A value under "" that has to make way fails it too, though both values fit.
  lemma BlankKeyFailsAssertion<V>(p: Policy, v: V)
    ensures var s := Init<V>(4, Evictor(p, []));
            Run(s, [SetOp(NO_KEY, Entry(v, 1)), SetOp("a", Entry(v, 4))]).replies == [Stored, AssertFails(OnEviction)]
  {
    var ops := [SetOp(NO_KEY, Entry(v, 1)), SetOp("a", Entry(v, 4))];
    assert ops[1..] == [ops[1]];
    FirstIsStored(4, p, NO_KEY, Entry(v, 1));
    var t := BlankStored(p, v);
    assert t.cur == 1 && SizeChange(t, "a", 4) == 4;
    assert Set(t, "a", Entry(v, 4)) == MakeRoom(t, "a", Entry(v, 4), 4);
    assert Front(t.evictor.queue) == NO_KEY;
    assert MakeRoom(t, "a", Entry(v, 4), 4).reply == AssertFails(OnEviction);
  }

  // And a reset with "" queued before another key leaves that key in the evictor.
  lemma BlankKeyOutlivesReset<V>(p: Policy, v: V)
    ensures var s := Init<V>(4, Evictor(p, []));
            var ops := [SetOp(NO_KEY, Entry(v, 1)), SetOp("a", Entry(v, 1)), ResetOp];
            Run(s, ops) == Trace([Stored, Stored, Cleared], Init(4, Evictor(p, ["a"])))
  {
    var ops := [SetOp(NO_KEY, Entry(v, 1)), SetOp("a", Entry(v, 1)), ResetOp];
    FirstIsStored(4, p, NO_KEY, Entry(v, 1));
    BlankStaysQueued(p, v);
    assert ops[1..][1..] == [ResetOp];
    assert Run(Step(BlankStored(p, v), ops[1]).state, [ResetOp]).replies == [Cleared];
  }

  lemma {:induction false} BlankStaysQueued<V>(p: Policy, v: V)
    ensures var o := Set(BlankStored(p, v), "a", Entry(v, 1));
            o.reply == Stored && Reset(o.state) == Outcome(Cleared, Init(4, Evictor(p, ["a"])))
  {
    var s, e := BlankStored(p, v), Entry(v, 1);
    assert Set(s, "a", e) == MakeRoom(s, "a", e, 1) == Insert(s, "a", e);
    assert Without([NO_KEY], "a") == [NO_KEY];
    assert Touched(p, [NO_KEY], "a") == [NO_KEY] + ["a"];
    MemDrop(s.table, NO_KEY);
    assert s.table - {NO_KEY} == map[];
    StepKeepsConserved(s, SetOp("a", e));
    assert Drained([NO_KEY, "a"]) == ["a"];
  }

  function Emptied(ev: EvictorModel): EvictorModel {
    if ev.NoEvictor? then NoEvictor else ev.(queue := [])
  }

  // A reset is a fresh cache exactly when the queue holds no "", except perhaps last.
  lemma ResetIsFreshIff<V>(s: State<V>)
    requires Conserved(s)
    ensures Reset(s) == Outcome(Cleared, Init(s.maxmem, Emptied(s.evictor)))
            <==> (s.evictor.NoEvictor? || forall i :: 0 <= i < |s.evictor.queue| - 1 ==> s.evictor.queue[i] != NO_KEY)
  {
    if s.evictor.Evictor? {
      DrainedIsEmpty(s.evictor.queue);
    }
  }

  // So whatever is done after a reset goes as on a newly constructed cache.
  lemma {:induction false} RunAfterReset<V>(s: State<V>, ops: seq<Op<V>>)
    requires Good(s)
    ensures var t := Run(Init<V>(s.maxmem, Emptied(s.evictor)), ops);
            Run(s, [ResetOp] + ops) == Trace([Cleared] + t.replies, t.state)
  {
    ResetIsFreshIff(s);
    assert ([ResetOp] + ops)[1..] == ops;
  }

  lemma {:induction false} RunKeepsGood<V>(s: State<V>, ops: seq<Op<V>>)
    requires Good(s) && AllProper(ops)
    ensures var t := Run(s, ops);
            !t.Crashed() ==> Good(t.state) && t.state.maxmem == s.maxmem && |t.replies| == |ops|
    decreases |ops|
  {
    if ops != [] && !Step(s, ops[0]).reply.Faulty() {
      StepKeepsGood(s, ops[0]);
      RunKeepsGood(Step(s, ops[0]).state, ops[1..]);
    }
  }

  // Conservation alone does not need the evictor, and holds with values under "", too.
  lemma StepKeepsConserved<V>(s: State<V>, op: Op<V>)
    requires Conserved(s) && 2 * s.maxmem <= INT_MAX && ProperSize(op) && !Step(s, op).reply.Faulty()
    ensures Conserved(Step(s, op).state) && Step(s, op).state.maxmem == s.maxmem
  {
    if op.SetOp? {
      var key, e := op.key, op.entry;
      SetIsIdeal(s, key, e);
      if s.evictor.Evictor? && Set(s, key, e).reply == Stored {
        StoredState(s, key, e);
      } else {
        MemUpdate(s.table - {key}, key, e);
        assert s.table - {key} - {key} == s.table - {key};
      }
    } else if op.DelOp? {
      MemDrop(s.table, op.key);
    }
  }

  // And it holds exactly for sizes within int: a larger one is a negative change in size, which
  // passes every guard, and the byte count wraps.
  lemma {:induction false} StepConservesIff<V>(s: State<V>, op: Op<V>)
    requires Conserved(s) && 2 * s.maxmem <= INT_MAX && !Step(s, op).reply.Faulty()
    ensures Conserved(Step(s, op).state) <==> ProperSize(op)
  {
    if ProperSize(op) {
      StepKeepsConserved(s, op);
    } else {
      WideSetWraps(s, op.key, op.entry);
    }
  }

  lemma {:induction false} WideSetWraps<V>(s: State<V>, key: Key, e: Entry<V>)
    requires Conserved(s) && 2 * s.maxmem <= INT_MAX && e.size > INT_MAX && !Set(s, key, e).reply.Faulty()
    ensures var t := Set(s, key, e).state;
            t.cur <= t.maxmem == s.maxmem && Mem(t.table) == Mem(s.table - {key}) + e.size > INT_MAX
  {
    var change := SizeChange(s, key, e.size);
    MemDrop(s.table, key);
    MemUpdate(s.table, key, e);
    MemUpdate(s.table - {key}, key, e);
    assert s.table - {key} - {key} == s.table - {key};
    assert Set(s, key, e) == MakeRoom(s, key, e, change) == Replace(s, key, e);
  }

  lemma {:induction false} RunKeepsConserved<V>(s: State<V>, ops: seq<Op<V>>)
    requires Conserved(s) && 2 * s.maxmem <= INT_MAX && !Run(s, ops).Crashed()
    requires forall i :: 0 <= i < |ops| ==> ProperSize(ops[i])
    ensures Conserved(Run(s, ops).state) && Run(s, ops).state.maxmem == s.maxmem
    decreases |ops|
  {
    if ops != [] {
      RunTail(s, ops);
      StepKeepsConserved(s, ops[0]);
      RunKeepsConserved(Step(s, ops[0]).state, ops[1..]);
    }
  }

  // A run of values that each fit the cache never faults.
  lemma {:induction false} FittingRunNeverFaults<V>(s: State<V>, ops: seq<Op<V>>)
    requires Good(s) && AllProper(ops) && AllWithin(ops, s.maxmem)
    ensures !Run(s, ops).Crashed()
    decreases |ops|
  {
    if ops != [] {
      FaultsIff(s, ops[0]);
      StepKeepsGood(s, ops[0]);
      FittingRunNeverFaults(Step(s, ops[0]).state, ops[1..]);
    }
  }

  // ----- agreement with a map without a capacity -----

  ghost predicate SubMap<V>(t: Table<V>, m: Table<V>) {
    forall k :: k in t ==> k in m && m[k] == t[k]
  }

  // The map that forgets nothing, told only the operations and which values were accepted.
  function Noted<V>(m: Table<V>, op: Op<V>, r: Reply<V>): Table<V> {
    match op
    case SetOp(k, e) => if r.Stored? then m[k := e] else m
    case GetOp(_) => m
    case DelOp(k) => m - {k}
    case ResetOp => map[]
    case SpaceOp => m
  }

  function AllNoted<V>(m: Table<V>, ops: seq<Op<V>>, rs: seq<Reply<V>>): Table<V>
    decreases |ops|
  {
    if ops == [] || rs == [] then m
    else AllNoted(Noted(m, ops[0], rs[0]), ops[1..], rs[1..])
  }

  lemma {:induction false} MakeRoomOnlyRemoves<V>(s: State<V>, key: Key, e: Entry<V>, change: int)
    ensures var o := MakeRoom(s, key, e, change);
            o.reply.Faulty() || (o.reply == Stored && SubMap(o.state.table, s.table[key := e]))
    decreases if s.evictor.NoEvictor? then 0 else |s.evictor.queue|
  {
    var sum := AsInt(s.cur) + change;
    var k := if s.evictor.Evictor? then Front(s.evictor.queue) else NO_KEY;
    if sum > AsInt(s.maxmem) && k != NO_KEY {
      if k !in s.table {
        MakeRoomOnlyRemoves(WithPop(s), key, e, change);
      } else if s.table[k].size <= s.cur {
        MakeRoomOnlyRemoves(Freed(WithPop(s), k), key, e, if k == key then AsInt(e.size) else change);
      }
    }
  }

  lemma SetReplies<V>(s: State<V>, key: Key, e: Entry<V>)
    ensures var r := Set(s, key, e).reply;
            r.Faulty() || r == Stored || r == TooLarge || r == NoRoom
  {
    MakeRoomOnlyRemoves(s, key, e, SizeChange(s, key, e.size));
  }

  lemma StepWithinMap<V>(s: State<V>, op: Op<V>, m: Table<V>)
    requires SubMap(s.table, m) && !Step(s, op).reply.Faulty()
    ensures SubMap(Step(s, op).state.table, Noted(m, op, Step(s, op).reply))
  {
    if op.SetOp? {
      MakeRoomOnlyRemoves(s, op.key, op.entry, SizeChange(s, op.key, op.entry.size));
    }
  }

  // In every run, from every state, the table stays within the map that forgets nothing.
  lemma {:induction false} RunWithinMap<V>(s: State<V>, ops: seq<Op<V>>, m: Table<V>)
    requires SubMap(s.table, m) && !Run(s, ops).Crashed()
    ensures SubMap(Run(s, ops).state.table, AllNoted(m, ops, Run(s, ops).replies))
    decreases |ops|
  {
    if ops != [] {
      var o := Step(s, ops[0]);
      StepWithinMap(s, ops[0], m);
      RunWithinMap(o.state, ops[1..], Noted(m, ops[0], o.reply));
      assert Run(s, ops).replies[1..] == Run(o.state, ops[1..]).replies;
    }
  }

  // And every hit answers the value last accepted for its key.
  lemma {:induction false} HitsAreLatest<V>(s: State<V>, ops: seq<Op<V>>, m: Table<V>, i: nat)
    requires SubMap(s.table, m) && i < |Run(s, ops).replies| && ops[i].GetOp?
    requires Run(s, ops).replies[i].Hit?
    ensures var latest, r := AllNoted(m, ops[..i], Run(s, ops).replies[..i]), Run(s, ops).replies[i];
            ops[i].key in latest && latest[ops[i].key] == Entry(r.data, r.size)
    decreases |ops|
  {
    var o := Step(s, ops[0]);
    var rs := Run(s, ops).replies;
    if i > 0 {
      StepWithinMap(s, ops[0], m);
      HitsAreLatest(o.state, ops[1..], Noted(m, ops[0], o.reply), i - 1);
      assert rs[1..] == Run(o.state, ops[1..]).replies;
      assert ops[..i][1..] == ops[1..][..i - 1] && rs[..i][1..] == rs[1..][..i - 1];
    }
  }
}
