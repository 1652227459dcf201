// What each operation answers and what it does to the rows, under any evictor and under none. All
// of it is stated over the rows and their bytes as mathematical integers.

module CacheContract {
  import opened Basics
  import opened EvictionPolicy
  import opened CacheModel
  import opened SetIsExact
  import opened CacheRuns

  ghost predicate Sound<V>(s: State<V>) {
    Conserved(s) && 2 * s.maxmem <= INT_MAX
  }

  predicate AllProperSize<V>(ops: seq<Op<V>>) {
    forall i :: 0 <= i < |ops| ==> ProperSize(ops[i])
  }

  // ----- one operation -----

  // What an operation has to answer, given the rows. A `set` is refused by its change in size, or
  // for lack of room where nothing can be evicted.
  ghost predicate RightAnswer<V>(s: State<V>, op: Op<V>, r: Reply<V>) {
    match op
    case SetOp(k, e) =>
      var before := Mem(s.table) - Mem(s.table - {k});
      && (r == TooLarge <==> e.size > s.maxmem + before)
      && (r == NoRoom <==> s.evictor.NoEvictor? && Mem(s.table - {k}) + e.size > s.maxmem && r != TooLarge)
      && (r != TooLarge && r != NoRoom ==> r == Stored)
    case GetOp(k) => r == if k in s.table then Hit(s.table[k].data, s.table[k].size) else Miss
    case DelOp(k) => r == Deleted(k in s.table)
    case ResetOp => r == Cleared
    case SpaceOp => r == Used(Mem(s.table))
  }

  // The keys an accepted `set` has its evictor give up.
  ghost function Evicted<V>(s: State<V>, op: Op<V>, r: Reply<V>): set<Key> {
    if s.evictor.Evictor? && op.SetOp? && r.Stored? then
      var q := s.evictor.queue;
      Keys(q[..Pops(s.table - {op.key}, q, s.maxmem - op.entry.size)])
    else {}
  }

  // Only an accepted `set`, a hit and a reset reach the evictor.
  predicate LeavesEvictor<V>(op: Op<V>, r: Reply<V>) {
    !r.Stored? && !r.Hit? && !r.Cleared?
  }

  lemma SetIsRight<V>(s: State<V>, k: Key, e: Entry<V>)
    requires Sound(s) && e.size <= INT_MAX && !Set(s, k, e).reply.Faulty()
    ensures var o, op := Set(s, k, e), SetOp(k, e);
            && RightAnswer(s, op, o.reply)
            && o.state.table == Noted(s.table - Evicted(s, op, o.reply), op, o.reply)
            && (o.reply != Stored ==> o.state == s)
  {
    SetIsIdeal(s, k, e);
    assert s.table - {} == s.table;
    if Set(s, k, e).reply == Stored {
      if s.evictor.Evictor? {
        StoredState(s, k, e);
      } else {
        assert s.table[k := e] == (s.table - {k})[k := e];
      }
    }
  }

  // An operation that returns gives the right answer, loses no row but those evicted, deleted or
  // reset, changes no row but the one set, and counts the bytes.
  lemma StepContract<V>(s: State<V>, op: Op<V>)
    requires Sound(s) && ProperSize(op) && !Step(s, op).reply.Faulty()
    ensures var o := Step(s, op);
            && RightAnswer(s, op, o.reply)
            && o.state.table == Noted(s.table - Evicted(s, op, o.reply), op, o.reply)
            && o.state.cur == Mem(o.state.table) <= o.state.maxmem == s.maxmem
            && (LeavesEvictor(op, o.reply) ==> o.state.evictor == s.evictor)
  {
    StepKeepsConserved(s, op);
    assert s.table - {} == s.table;
    match op {
      case SetOp(k, e) => SetIsRight(s, k, e);
      case GetOp(_) =>
      case DelOp(k) => MemDrop(s.table, k);
      case ResetOp =>
      case SpaceOp =>
    }
  }

  // A value of 2^31 bytes or more turns into a negative change. It overflows the subtraction if the
  // old row is large enough; otherwise nothing is evicted, the byte count wraps, and the assertion at
  // the end of `set` notices only if the wrapped count is over the capacity.
  lemma WideSetIs<V>(s: State<V>, k: Key, e: Entry<V>)
    requires Sound(s) && e.size > INT_MAX
    ensures var o, others := Set(s, k, e), Mem(s.table - {k});
            && (o.reply == SignedOverflow <==> e.size - INT_MAX <= Mem(s.table) - others)
            && (o.reply == AssertFails(OnExit) <==>
                  e.size - INT_MAX > Mem(s.table) - others && (others + e.size) % TWO_32 > s.maxmem)
            && (o.reply != SignedOverflow && o.reply != AssertFails(OnExit) ==>
                  && o.reply == Stored && o.state.table == s.table[k := e]
                  && o.state.cur == (others + e.size) % TWO_32 && o.state.evictor == s.evictor.Touch(k))
  {
    var change := SizeChange(s, k, e.size);
    MemDrop(s.table, k);
    assert (s.table - {k})[k := e] == s.table[k := e];
    if FitsInt(change) {
      assert Set(s, k, e) == MakeRoom(s, k, e, change) == Replace(s, k, e);
    }
  }

  // `del` answers whether there was a row, removes that row and no other, and leaves the evictor.
  lemma DelContract<V>(s: State<V>, k: Key)
    requires Conserved(s)
    ensures var o := Del(s, k);
            && (o.reply == Deleted(true) <==> k in s.table) && (o.reply == Deleted(false) <==> k !in s.table)
            && o.state.table == s.table - {k} && Conserved(o.state)
            && o.state.maxmem == s.maxmem && o.state.evictor == s.evictor
  {
    MemDrop(s.table, k);
  }

  // The bytes a value has to find room in.
  ghost function Room<V>(s: State<V>, k: Key): int {
    if s.evictor.Evictor? then s.maxmem else s.maxmem - Mem(s.table - {k})
  }

  // A value that fits is in its row afterwards; any other is refused or fails the assertion.
  lemma SetStores<V>(s: State<V>, k: Key, e: Entry<V>)
    requires Good(s) && Proper(SetOp(k, e))
    ensures var o := Step(s, SetOp(k, e));
            if e.size <= Room(s, k) then o.reply == Stored && k in o.state.table && o.state.table[k] == e
            else o.reply.Faulty() || o.state == s
  {
    SetContract(s, k, e);
    if Set(s, k, e).reply == Stored {
      StepContract(s, SetOp(k, e));
    }
  }

  // A reset drops the queue up to its first "", and keeps what stands behind.
  lemma ResetContract<V>(s: State<V>)
    requires Conserved(s)
    ensures var t := Reset(s).state;
            && Reset(s).reply == Cleared && t.table == map[] && t.cur == 0 && t.maxmem == s.maxmem
            && (s.evictor.NoEvictor? ==> t.evictor == NoEvictor)
            && (s.evictor.Evictor? ==> t.evictor.Evictor? && t.evictor.policy == s.evictor.policy)
            && (s.evictor.Evictor? && NO_KEY !in s.evictor.queue ==> t.evictor.queue == [])
            && forall i | s.evictor.Evictor? && 0 <= i < |s.evictor.queue| ::
                 s.evictor.queue[i] == NO_KEY && NO_KEY !in s.evictor.queue[..i] ==> t.evictor.queue == s.evictor.queue[i + 1..]
  {
    if s.evictor.Evictor? {
      var q := s.evictor.queue;
      if NO_KEY in q {
        var i :| 0 <= i < |q| && q[i] == NO_KEY;
      }
      forall i | 0 <= i <= |q| && NO_KEY !in q[..i] && (i == |q| || q[i] == NO_KEY)
        ensures Drained(q) == if i == |q| then [] else q[i + 1..]
      {
        DrainedFrom(q, i);
      }
      assert q[..|q|] == q;
    }
  }

  lemma {:induction false} DrainedFrom(q: seq<Key>, i: nat)
    requires i <= |q| && NO_KEY !in q[..i] && (i == |q| || q[i] == NO_KEY)
    ensures Drained(q) == if i == |q| then [] else q[i + 1..]
  {
    if i > 0 {
      assert q[..i] == [q[0]] + q[1..][..i - 1];
      DrainedFrom(q[1..], i - 1);
    }
  }

  // ----- runs under any evictor -----

  lemma {:induction false} PrefixRun<V>(s: State<V>, ops: seq<Op<V>>, i: nat)
    requires 0 < i <= |ops| && !Step(s, ops[0]).reply.Faulty()
    ensures var t, rest := Run(s, ops[..i]), Run(Step(s, ops[0]).state, ops[1..][..i - 1]);
            t.state == rest.state && |t.replies| == 1 + |rest.replies| && (t.Crashed() <==> rest.Crashed())
  {
    assert ops[..i][1..] == ops[1..][..i - 1];
    RunUnfold(s, ops[..i]);
  }

  lemma {:induction false} SoundAfter<V>(s: State<V>, ops: seq<Op<V>>, i: nat)
    requires Sound(s) && AllProperSize(ops) && i <= |ops| && !Run(s, ops).Crashed()
    ensures var past := Run(s, ops[..i]);
            && !past.Crashed() && Sound(past.state) && past.state.maxmem == s.maxmem && |past.replies| == i
    ensures i < |ops| ==>
              && |Run(s, ops).replies| > i
              && Run(s, ops).replies[i] == Step(Run(s, ops[..i]).state, ops[i]).reply
              && !Run(s, ops).replies[i].Faulty()
    decreases i
  {
    if i > 0 {
      var t := Step(s, ops[0]).state;
      RunTail(s, ops);
      StepKeepsConserved(s, ops[0]);
      SoundAfter(t, ops[1..], i - 1);
      PrefixRun(s, ops, i);
      assert i < |ops| ==> Run(s, ops).replies[i] == Run(t, ops[1..]).replies[i - 1];
    } else if ops != [] {
      RunTail(s, ops);
    }
  }

  // In every run each answer is the right one for the rows at that moment.
  lemma {:induction false} AnswersAreRight<V>(s: State<V>, ops: seq<Op<V>>, i: nat)
    requires Sound(s) && AllProperSize(ops) && i < |ops| && !Run(s, ops).Crashed()
    ensures i < |Run(s, ops).replies| && RightAnswer(Run(s, ops[..i]).state, ops[i], Run(s, ops).replies[i])
  {
    SoundAfter(s, ops, i);
    StepContract(Run(s, ops[..i]).state, ops[i]);
  }

  // So a `del` tells whether a `get` in its place would have hit.
  lemma {:induction false} DelTellsWhatGetWould<V>(s: State<V>, ops: seq<Op<V>>, i: nat)
    requires Sound(s) && AllProperSize(ops) && i < |ops| && !Run(s, ops).Crashed() && ops[i].DelOp?
    ensures var instead := Run(s, ops[..i] + [GetOp(ops[i].key)]).replies;
            && i < |Run(s, ops).replies| && |instead| == i + 1
            && Run(s, ops).replies[i] == Deleted(instead[i].Hit?)
  {
    AnswersAreRight(s, ops, i);
    SoundAfter(s, ops, i);
    RunSnoc(s, ops[..i], GetOp(ops[i].key));
  }

  // The map that forgets what the evictor gives up, and nothing else.
  ghost function AllKept<V>(m: Table<V>, s: State<V>, ops: seq<Op<V>>): Table<V>
    decreases |ops|
  {
    if ops == [] then m
    else
      var o := Step(s, ops[0]);
      AllKept(Noted(m - Evicted(s, ops[0], o.reply), ops[0], o.reply), o.state, ops[1..])
  }

  // After every run the rows are what was accepted and not deleted, reset or evicted since.
  lemma {:induction false} RunKeepsAllElse<V>(s: State<V>, ops: seq<Op<V>>)
    requires Sound(s) && AllProperSize(ops) && !Run(s, ops).Crashed()
    ensures Run(s, ops).state.table == AllKept(s.table, s, ops)
    decreases |ops|
  {
    if ops != [] {
      RunTail(s, ops);
      StepContract(s, ops[0]);
      StepKeepsConserved(s, ops[0]);
      RunKeepsAllElse(Step(s, ops[0]).state, ops[1..]);
    }
  }

  // ----- without an evictor -----

  // The reference: a map with a bound on the bytes in it.
  ghost function BoundedStep<V>(maxmem: nat, m: Table<V>, op: Op<V>): (Reply<V>, Table<V>) {
    match op
    case SetOp(k, e) =>
      if Mem(m[k := e]) <= maxmem then (Stored, m[k := e])
      else (if Mem(m[k := e]) - Mem(m) > maxmem then TooLarge else NoRoom, m)
    case GetOp(k) => (if k in m then Hit(m[k].data, m[k].size) else Miss, m)
    case DelOp(k) => (Deleted(k in m), m - {k})
    case ResetOp => (Cleared, map[])
    case SpaceOp => (Used(Mem(m)), m)
  }

  ghost function BoundedRun<V>(maxmem: nat, m: Table<V>, ops: seq<Op<V>>): (seq<Reply<V>>, Table<V>)
    decreases |ops|
  {
    if ops == [] then ([], m)
    else
      var (r, next) := BoundedStep(maxmem, m, ops[0]);
      var rest := BoundedRun(maxmem, next, ops[1..]);
      ([r] + rest.0, rest.1)
  }

  lemma PlainStepIsBounded<V>(s: State<V>, op: Op<V>)
    requires Sound(s) && s.evictor.NoEvictor? && ProperSize(op)
    ensures var o := Step(s, op);
            && !o.reply.Faulty() && Sound(o.state) && o.state.evictor.NoEvictor? && o.state.maxmem == s.maxmem
            && (o.reply, o.state.table) == BoundedStep(s.maxmem, s.table, op)
  {
    match op {
      case SetOp(k, e) =>
        SetFaultsIff(s, k, e);
        SetIsIdeal(s, k, e);
        MemDrop(s.table, k);
        MemUpdate(s.table, k, e);
      case GetOp(_) =>
      case DelOp(k) => DelContract(s, k);
      case ResetOp => ResetContract(s);
      case SpaceOp =>
    }
    StepContract(s, op);
    assert s.table - {} == s.table;
  }

  // Without an evictor every run is the run of a bounded map: it never faults, and what it answers
  // and ends with is decided by the map alone.
  lemma {:induction false} PlainCacheIsBoundedMap<V>(s: State<V>, ops: seq<Op<V>>)
    requires Sound(s) && s.evictor.NoEvictor? && AllProperSize(ops)
    ensures var t, b := Run(s, ops), BoundedRun(s.maxmem, s.table, ops);
            !t.Crashed() && t.replies == b.0 && t.state.table == b.1
    decreases |ops|
  {
    if ops != [] {
      PlainStepIsBounded(s, ops[0]);
      PlainCacheIsBoundedMap(Step(s, ops[0]).state, ops[1..]);
      RunUnfold(s, ops);
    }
  }
}
