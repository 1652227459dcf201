// The evictor inside a running cache: its queue is the one its history of touches and evictions
// defines, so the order theorems of each policy hold of whole cache runs.

module EvictionHistory {
  import opened Basics
  import opened Sequences
  import opened EvictionPolicy
  import opened CacheModel
  import opened SetIsExact
  import opened CacheRuns

  ghost function Evictions(n: nat): (es: seq<Event>)
    ensures |es| == n && forall i :: 0 <= i < n ==> es[i] == Evict
  {
    seq(n, _ => Evict)
  }

  // The calls an operation makes on its evictor: an accepted `set` evicts until there is room and
  // touches its key, a hit touches, a reset evicts until it is answered "".
  ghost function EventsOf<V>(s: State<V>, op: Op<V>, r: Reply<V>): seq<Event> {
    if s.evictor.NoEvictor? then []
    else
      match op
      case SetOp(k, e) =>
        if r.Stored? then
          Evictions(Pops(s.table - {k}, s.evictor.queue, s.maxmem - e.size)) + [Touch(k)]
        else []
      case GetOp(k) => if r.Hit? then [Touch(k)] else []
      case DelOp(_) => []
      case ResetOp => Evictions(|s.evictor.queue| + 1)
      case SpaceOp => []
  }

  ghost function RunEvents<V>(s: State<V>, ops: seq<Op<V>>): seq<Event>
    decreases |ops|
  {
    if ops == [] then []
    else
      var o := Step(s, ops[0]);
      if o.reply.Faulty() then [] else EventsOf(s, ops[0], o.reply) + RunEvents(o.state, ops[1..])
  }

  // ----- the queue is the history's -----

  lemma {:induction false} QueueOfSnoc(p: Policy, es: seq<Event>, e: Event)
    ensures QueueOf(p, es + [e]) ==
            match e case Touch(k) => Touched(p, QueueOf(p, es), k) case Evict => Popped(QueueOf(p, es))
  {
    assert (es + [e])[..|es|] == es;
  }

  lemma {:induction false} QueueAfterEvictions(p: Policy, past: seq<Event>, n: nat)
    ensures var q := QueueOf(p, past);
            QueueOf(p, past + Evictions(n)) == if n <= |q| then q[n..] else []
  {
    if n == 0 {
      assert past + Evictions(0) == past;
    } else {
      var before, q := past + Evictions(n - 1), QueueOf(p, past);
      QueueAfterEvictions(p, past, n - 1);
      assert Evictions(n) == Evictions(n - 1) + [Evict];
      assert past + Evictions(n) == before + [Evict];
      QueueOfSnoc(p, before, Evict);
      assert n <= |q| ==> q[n - 1..][1..] == q[n..];
    }
  }

  lemma {:induction false} QueueAfterMakingRoom(p: Policy, past: seq<Event>, n: nat, k: Key)
    requires n <= |QueueOf(p, past)|
    ensures QueueOf(p, past + (Evictions(n) + [Touch(k)])) == Touched(p, QueueOf(p, past)[n..], k)
  {
    QueueAfterEvictions(p, past, n);
    QueueOfSnoc(p, past + Evictions(n), Touch(k));
    assert past + (Evictions(n) + [Touch(k)]) == (past + Evictions(n)) + [Touch(k)];
  }

  // The evictor is where a history of its policy leaves it.
  ghost predicate Follows<V>(s: State<V>, p: Policy, past: seq<Event>) {
    s.evictor == Evictor(p, QueueOf(p, past))
  }

  lemma MakingRoomFollows<V>(s: State<V>, t: State<V>, k: Key, e: Entry<V>, p: Policy, past: seq<Event>)
    requires Follows(s, p, past)
    requires var n := Pops(s.table - {k}, s.evictor.queue, s.maxmem - e.size);
             t.evictor == Evictor(p, Touched(p, s.evictor.queue[n..], k))
    ensures Follows(t, p, past + EventsOf(s, SetOp(k, e), Stored))
  {
    var n := Pops(s.table - {k}, s.evictor.queue, s.maxmem - e.size);
    QueueAfterMakingRoom(p, past, n, k);
  }

  lemma SetFollowsHistory<V>(s: State<V>, k: Key, e: Entry<V>, p: Policy, past: seq<Event>)
    requires Good(s) && Proper(SetOp(k, e)) && Set(s, k, e).reply == Stored && Follows(s, p, past)
    ensures Follows(Set(s, k, e).state, p, past + EventsOf(s, SetOp(k, e), Stored))
  {
    StoredState(s, k, e);
    MakingRoomFollows(s, Set(s, k, e).state, k, e, p, past);
  }

  lemma StepFollowsHistory<V>(s: State<V>, op: Op<V>, p: Policy, past: seq<Event>)
    requires Good(s) && Proper(op) && !Step(s, op).reply.Faulty() && Follows(s, p, past)
    ensures var o := Step(s, op);
            Follows(o.state, p, past + EventsOf(s, op, o.reply))
  {
    assert past + [] == past;
    match op {
      case SetOp(k, e) =>
        if Set(s, k, e).reply == Stored {
          SetFollowsHistory(s, k, e, p, past);
        } else {
          SetContract(s, k, e);
        }
      case GetOp(k) =>
        QueueOfSnoc(p, past, Touch(k));
      case DelOp(_) =>
      case ResetOp =>
        QueueAfterEvictions(p, past, |s.evictor.queue| + 1);
        DrainedIsEmpty(s.evictor.queue);
      case SpaceOp =>
    }
  }

  lemma {:induction false} HeadFollowsHistory<V>(s: State<V>, ops: seq<Op<V>>, p: Policy, past: seq<Event>)
    requires ops != [] && Good(s) && AllProper(ops) && !Run(s, ops).Crashed() && Follows(s, p, past)
    ensures var o := Step(s, ops[0]);
            && Good(o.state) && AllProper(ops[1..]) && !Run(o.state, ops[1..]).Crashed()
            && Follows(o.state, p, past + EventsOf(s, ops[0], o.reply))
            && Run(s, ops).state == Run(o.state, ops[1..]).state
            && RunEvents(s, ops) == EventsOf(s, ops[0], o.reply) + RunEvents(o.state, ops[1..])
  {
    RunTail(s, ops);
    StepKeepsGood(s, ops[0]);
    StepFollowsHistory(s, ops[0], p, past);
  }

  lemma {:induction false} RunFollowsHistory<V>(s: State<V>, ops: seq<Op<V>>, p: Policy, past: seq<Event>)
    requires Good(s) && AllProper(ops) && !Run(s, ops).Crashed() && Follows(s, p, past)
    ensures Follows(Run(s, ops).state, p, past + RunEvents(s, ops))
    decreases |ops|
  {
    if ops == [] {
      assert past + [] == past;
    } else {
      var o := Step(s, ops[0]);
      var es, rest := EventsOf(s, ops[0], o.reply), RunEvents(o.state, ops[1..]);
      HeadFollowsHistory(s, ops, p, past);
      RunFollowsHistory(o.state, ops[1..], p, past + es);
      ConcatAssociates(past, es, rest);
    }
  }

  // ----- the keys touched, as a caller sees them -----

  predicate Touching<V>(op: Op<V>, r: Reply<V>) {
    (op.SetOp? && r.Stored?) || (op.GetOp? && r.Hit?)
  }

  // The keys of accepted sets and of hits, in order.
  function TouchesSeen<V>(ops: seq<Op<V>>, rs: seq<Reply<V>>): seq<Key>
    decreases |ops|
  {
    if ops == [] || rs == [] then []
    else
      (if Touching(ops[0], rs[0]) then [ops[0].key] else []) + TouchesSeen(ops[1..], rs[1..])
  }

  lemma {:induction false} TouchesConcat(a: seq<Event>, b: seq<Event>)
    ensures Touches(a + b) == Touches(a) + Touches(b)
  {
    if b == [] {
      assert a + b == a;
    } else {
      TouchesConcat(a, b[..|b| - 1]);
      assert (a + b)[..|a + b| - 1] == a + b[..|b| - 1];
    }
  }

  lemma {:induction false} EvictionsTouchNothing(n: nat)
    ensures Touches(Evictions(n)) == []
  {
    if n > 0 {
      EvictionsTouchNothing(n - 1);
      assert Evictions(n)[..n - 1] == Evictions(n - 1);
    }
  }

  lemma {:induction false} RunTouchesWhatIsSeen<V>(s: State<V>, ops: seq<Op<V>>)
    requires Good(s) && AllProper(ops) && !Run(s, ops).Crashed() && s.evictor.Evictor?
    ensures Touches(RunEvents(s, ops)) == TouchesSeen(ops, Run(s, ops).replies)
    decreases |ops|
  {
    if ops != [] {
      var op, o := ops[0], Step(s, ops[0]);
      StepKeepsGood(s, op);
      RunTouchesWhatIsSeen(o.state, ops[1..]);
      assert Run(s, ops).replies[1..] == Run(o.state, ops[1..]).replies;
      TouchesConcat(EventsOf(s, op, o.reply), RunEvents(o.state, ops[1..]));
      StepTouchesWhatIsSeen(s, op, o.reply);
    }
  }

  lemma StepTouchesWhatIsSeen<V>(s: State<V>, op: Op<V>, r: Reply<V>)
    requires s.evictor.Evictor?
    ensures Touches(EventsOf(s, op, r)) == if Touching(op, r) then [op.key] else []
  {
    if op.SetOp? && r.Stored? {
      var n := Pops(s.table - {op.key}, s.evictor.queue, s.maxmem - op.entry.size);
      EvictionsTouchNothing(n);
      TouchesConcat(Evictions(n), [Touch(op.key)]);
      assert Touches([Touch(op.key)]) == [op.key];
    } else if op.ResetOp? {
      EvictionsTouchNothing(|s.evictor.queue| + 1);
    }
  }

  // ----- the two policies over whole cache runs -----

  ghost predicate FreshRun<V>(maxmem: u32, p: Policy, ops: seq<Op<V>>) {
    2 * maxmem <= INT_MAX && AllProper(ops) && !Run(Init<V>(maxmem, Evictor(p, [])), ops).Crashed()
  }

  // In every run of an LRU cache the queue is the tracked keys by the time of their last touch.
  lemma {:induction false} LruCacheSortsByLastTouch<V>(maxmem: u32, ops: seq<Op<V>>)
    requires FreshRun(maxmem, Lru, ops)
    ensures var s := Init<V>(maxmem, Evictor(Lru, []));
            var ev := Run(s, ops).state.evictor;
            ev.Evictor? && Lists(ev.queue, Stamps(RunEvents(s, ops)))
  {
    var s := Init<V>(maxmem, Evictor(Lru, []));
    RunFollowsHistory(s, ops, Lru, []);
    assert [] + RunEvents(s, ops) == RunEvents(s, ops);
    LruSortsByLastTouch(RunEvents(s, ops));
  }

  // In every run of a FIFO cache what was popped and what is queued are the touches in order.
  lemma {:induction false} FifoCachePopsOldestTouch<V>(maxmem: u32, ops: seq<Op<V>>)
    requires FreshRun(maxmem, Fifo, ops)
    ensures var s := Init<V>(maxmem, Evictor(Fifo, []));
            var t := Run(s, ops);
            && t.state.evictor.Evictor?
            && Answers(Fifo, RunEvents(s, ops)) + t.state.evictor.queue == TouchesSeen(ops, t.replies)
  {
    var s := Init<V>(maxmem, Evictor(Fifo, []));
    var es := RunEvents(s, ops);
    RunFollowsHistory(s, ops, Fifo, []);
    assert [] + es == es;
    RunTouchesNoBlank(s, ops);
    FifoAnswersTouchesInOrder(es);
    RunTouchesWhatIsSeen(s, ops);
  }

  lemma {:induction false} RunTouchesNoBlank<V>(s: State<V>, ops: seq<Op<V>>)
    requires Good(s) && AllProper(ops) && !Run(s, ops).Crashed() && s.evictor.Evictor?
    ensures Touch(NO_KEY) !in RunEvents(s, ops)
    decreases |ops|
  {
    if ops != [] {
      StepKeepsGood(s, ops[0]);
      RunTouchesNoBlank(Step(s, ops[0]).state, ops[1..]);
    }
  }
}
