// Threads calling one cache: every interleaving of their steps is linearizable, in the order in
// which the calls take the cache's mutex, and none deadlocks.

module Threads {
  import opened Basics
  import opened CacheModel
  import opened SetIsExact
  import opened CacheRuns
  import opened CallSteps

  datatype Local<+V> =
    | Idle
    | Waiting(op: Op<V>, at: nat)
    | Inside(op: Op<V>, pc: Pc<V>)
    | Leaving(reply: Reply<V>, index: nat)

  // A call, recorded when it takes the mutex, with the thread that makes it, the times of its
  // invocation and of its taking the mutex, and with its reply and the time of its return.
  datatype Call<+V> = Call(thread: Thread, calledAt: nat, lockedAt: nat, returned: Option<(Reply<V>, nat)>)

  datatype System<+V> = System(
    shared: State<V>,
    owner: Option<Thread>,
    evictorOwner: Option<Thread>,
    threads: seq<Local<V>>,
    log: seq<Op<V>>,  // the operations in the order in which their calls took the mutex
    calls: seq<Call<V>>,  // and these calls
    now: nat)
  {
    // The program has aborted once the owner of the mutex has come to a fault.
    ghost predicate Aborted() {
      && owner.Some? && owner.value < |threads|
      && var l := threads[owner.value];
         l.Inside? && l.pc.Finished? && l.pc.reply.Faulty()
    }

    // The operations whose calls have given the mutex back.
    ghost function Completed(): seq<Op<V>> {
      if owner.Some? && log != [] then log[..|log| - 1] else log
    }
  }

  ghost function Start<V>(s: State<V>, n: nat): System<V> {
    System(s, None, None, seq(n, _ => Idle), [], [], 0)
  }

  // ----- the steps of the system -----

  datatype Action<+V> =
    | Invoke(t: Thread, op: Op<V>)
    | Lock(t: Thread)
    | Work(t: Thread, pick: Key)
    | Unlock(t: Thread)
    | Return(t: Thread)

  ghost predicate Enabled<V>(sys: System<V>, a: Action<V>) {
    && a.t < |sys.threads| && !sys.Aborted()
    && var l := sys.threads[a.t];
       match a
       case Invoke(_, _) => l.Idle?
       case Lock(_) => l.Waiting? && sys.owner.None?
       case Work(t, pick) =>
         && l.Inside? && !l.pc.Finished? && At(sys.shared, l.op, l.pc)
         && (l.pc.Freeing? && sys.shared.table != map[] ==> pick in sys.shared.table)
         && (TurnOf(sys.shared, l.op, l.pc, pick).move.Take? ==> sys.evictorOwner.None?)
       case Unlock(_) => l.Inside? && l.pc.Finished? && sys.log != []
       case Return(_) => l.Leaving? && l.index < |sys.calls|
  }

  ghost function Do<V>(sys: System<V>, a: Action<V>): System<V>
    requires Enabled(sys, a)
  {
    var l, later := sys.threads[a.t], sys.now + 1;
    match a
    case Invoke(t, op) => sys.(threads := sys.threads[t := Waiting(op, sys.now)], now := later)
    case Lock(t) =>
      sys.(owner := Some(t), threads := sys.threads[t := Inside(l.op, Begin)],
           log := sys.log + [l.op], calls := sys.calls + [Call(t, l.at, sys.now, None)], now := later)
    case Work(t, pick) =>
      var turn := TurnOf(sys.shared, l.op, l.pc, pick);
      sys.(shared := turn.state, threads := sys.threads[t := Inside(l.op, turn.pc)],
           evictorOwner := (match turn.move case Take => Some(t) case Give => None case Stay => sys.evictorOwner),
           now := later)
    case Unlock(t) =>
      sys.(owner := None, threads := sys.threads[t := Leaving(l.pc.reply, |sys.log| - 1)], now := later)
    case Return(t) =>
      sys.(threads := sys.threads[t := Idle],
           calls := sys.calls[l.index := sys.calls[l.index].(returned := Some((l.reply, sys.now)))],
           now := later)
  }

  // ----- the invariants -----

  // Only the owner of the mutex is inside, and it works on the last call recorded.
  ghost predicate Exclusive<V>(sys: System<V>) {
    && (forall t :: 0 <= t < |sys.threads| ==> (sys.threads[t].Inside? <==> sys.owner == Some(t)))
    && (sys.owner.Some? ==>
          && sys.owner.value < |sys.threads| && sys.log != []
          && sys.log[|sys.log| - 1] == sys.threads[sys.owner.value].op
          && At(sys.shared, sys.threads[sys.owner.value].op, sys.threads[sys.owner.value].pc))
  }

  ghost predicate IsLru<V>(s: State<V>) {
    s.evictor.Evictor? && s.evictor.policy.Lru?
  }

  // The evictor's mutex is held by the owner of the cache's mutex while it is in an LRU evictor.
  ghost predicate Nested<V>(sys: System<V>)
    requires Exclusive(sys)
  {
    sys.evictorOwner ==
    if IsLru(sys.shared) && sys.owner.Some? && sys.threads[sys.owner.value].pc.InEvictor() then sys.owner else None
  }

  // The completed calls have run as a sequential run; the call inside will end as the next step.
  ghost predicate Sequential<V>(s: State<V>, sys: System<V>)
    requires Exclusive(sys)
  {
    var past := Run(s, sys.Completed());
    && !past.Crashed() && |past.replies| == |sys.Completed()|
    && (sys.owner.None? ==> sys.shared == past.state)
    && (sys.owner.Some? ==>
          var l := sys.threads[sys.owner.value];
          Same(Rest(sys.shared, l.op, l.pc), Step(past.state, l.op)))
  }

  // The replies given so far, returned or about to be, are those of a sequence.
  ghost predicate Answers<V>(replies: seq<Reply<V>>, sys: System<V>) {
    && (forall t :: 0 <= t < |sys.threads| && sys.threads[t].Leaving? ==>
          sys.threads[t].index < |replies| && sys.threads[t].reply == replies[sys.threads[t].index])
    && (forall i :: 0 <= i < |sys.calls| && sys.calls[i].returned.Some? ==>
          i < |replies| && sys.calls[i].returned.value.0 == replies[i])
  }

  ghost predicate Timed<V>(sys: System<V>) {
    && |sys.calls| == |sys.log|
    && (forall t :: 0 <= t < |sys.threads| && sys.threads[t].Waiting? ==> sys.threads[t].at < sys.now)
    && (forall i :: 0 <= i < |sys.calls| ==> sys.calls[i].calledAt < sys.calls[i].lockedAt < sys.now)
    && (forall i :: 0 <= i < |sys.calls| && sys.calls[i].returned.Some? ==>
          sys.calls[i].lockedAt < sys.calls[i].returned.value.1)
    && (forall i, j :: 0 <= i < j < |sys.calls| ==> sys.calls[i].lockedAt < sys.calls[j].lockedAt)
  }

  ghost predicate Inv<V>(s: State<V>, sys: System<V>) {
    && Exclusive(sys) && Nested(sys) && Sequential(s, sys) && Timed(sys)
    && Answers(Run(s, sys.Completed()).replies, sys)
  }

  // ----- every step keeps them -----

  lemma TurnMoves<V>(s: State<V>, op: Op<V>, pc: Pc<V>, pick: Key)
    requires At(s, op, pc) && !pc.Finished?
    requires pc.Freeing? && s.table != map[] ==> pick in s.table
    ensures var t := TurnOf(s, op, pc, pick);
            && (IsLru(t.state) <==> IsLru(s))
            && (t.move.Take? <==> IsLru(s) && !pc.InEvictor() && t.pc.InEvictor())
            && (t.move.Give? <==> IsLru(s) && pc.InEvictor() && !t.pc.InEvictor())
  {
  }

  lemma StepKeepsExclusive<V>(s: State<V>, sys: System<V>, a: Action<V>)
    requires Inv(s, sys) && Enabled(sys, a)
    ensures Exclusive(Do(sys, a)) && Nested(Do(sys, a))
  {
    if a.Work? {
      WorkKeepsExclusive(s, sys, a);
    }
  }

  lemma WorkKeepsExclusive<V>(s: State<V>, sys: System<V>, a: Action<V>)
    requires Inv(s, sys) && Enabled(sys, a) && a.Work?
    ensures Exclusive(Do(sys, a)) && Nested(Do(sys, a))
  {
    var l := sys.threads[a.t];
    TurnKeepsRest(sys.shared, l.op, l.pc, a.pick);
    TurnMoves(sys.shared, l.op, l.pc, a.pick);
  }

  lemma StepKeepsTimed<V>(sys: System<V>, a: Action<V>)
    requires Timed(sys) && Enabled(sys, a)
    ensures Timed(Do(sys, a))
  {
  }

  // Only giving the mutex back completes a call.
  lemma CompletedAfter<V>(sys: System<V>, a: Action<V>)
    requires Exclusive(sys) && Enabled(sys, a)
    ensures Do(sys, a).Completed() ==
            if a.Unlock? then sys.Completed() + [sys.threads[a.t].op] else sys.Completed()
  {
    var n := |sys.log| - 1;
    if a.Lock? {
      assert Do(sys, a).log[..n + 1] == sys.log;
    } else if a.Unlock? {
      assert sys.log == sys.log[..n] + [sys.log[n]];
    }
  }

  lemma StepKeepsSequential<V>(s: State<V>, sys: System<V>, a: Action<V>)
    requires Inv(s, sys) && Enabled(sys, a) && Exclusive(Do(sys, a))
    ensures Sequential(s, Do(sys, a))
  {
    CompletedAfter(sys, a);
    if a.Work? {
      WorkKeepsSequential(s, sys, a);
    } else if a.Unlock? {
      UnlockKeepsSequential(s, sys, a);
    }
  }

  lemma UnlockKeepsSequential<V>(s: State<V>, sys: System<V>, a: Action<V>)
    requires Inv(s, sys) && Enabled(sys, a) && a.Unlock? && Exclusive(Do(sys, a))
    ensures Sequential(s, Do(sys, a))
  {
    CompletedAfter(sys, a);
    FinishedIsNextStep(s, sys, sys.threads[a.t].op, sys.threads[a.t].pc.reply);
  }

  // The call inside, once finished, is the next step of the sequential run.
  lemma {:induction false} FinishedIsNextStep<V>(s: State<V>, sys: System<V>, op: Op<V>, r: Reply<V>)
    requires !Run(s, sys.Completed()).Crashed() && !r.Faulty()
    requires Same(Outcome(r, sys.shared), Step(Run(s, sys.Completed()).state, op))
    ensures var past := Run(s, sys.Completed());
            Run(s, sys.Completed() + [op]) == Trace(past.replies + [r], sys.shared)
            && |past.replies| == |sys.Completed()|
  {
    RunSnoc(s, sys.Completed(), op);
  }

  lemma WorkKeepsSequential<V>(s: State<V>, sys: System<V>, a: Action<V>)
    requires Inv(s, sys) && Enabled(sys, a) && a.Work? && Exclusive(Do(sys, a))
    ensures Sequential(s, Do(sys, a))
  {
    var l := sys.threads[a.t];
    TurnKeepsRest(sys.shared, l.op, l.pc, a.pick);
  }

  lemma StepKeepsAnswers<V>(replies: seq<Reply<V>>, sys: System<V>, a: Action<V>)
    requires Enabled(sys, a) && Answers(replies, sys)
    requires a.Unlock? ==> replies != [] && |sys.log| == |replies|
                           && sys.threads[a.t].pc.reply == replies[|replies| - 1]
    ensures Answers(replies, Do(sys, a))
  {
  }

  lemma {:induction false} StepKeepsReplies<V>(s: State<V>, sys: System<V>, a: Action<V>)
    requires Inv(s, sys) && Enabled(sys, a)
    ensures Answers(Run(s, Do(sys, a).Completed()).replies, Do(sys, a))
  {
    CompletedAfter(sys, a);
    if a.Unlock? {
      UnlockAddsReply(s, sys, a);
    }
    StepKeepsAnswers(Run(s, Do(sys, a).Completed()).replies, sys, a);
  }

  // The call that gives the mutex back has the reply of the sequential run's next step.
  lemma {:induction false} UnlockAddsReply<V>(s: State<V>, sys: System<V>, a: Action<V>)
    requires Inv(s, sys) && Enabled(sys, a) && a.Unlock?
    ensures var before := Run(s, sys.Completed()).replies;
            Run(s, sys.Completed() + [sys.threads[a.t].op]).replies == before + [sys.threads[a.t].pc.reply]
            && |sys.log| == |before| + 1
  {
    RunSnoc(s, sys.Completed(), sys.threads[a.t].op);
  }

  lemma StepKeepsInv<V>(s: State<V>, sys: System<V>, a: Action<V>)
    requires Inv(s, sys) && Enabled(sys, a)
    ensures Inv(s, Do(sys, a))
  {
    StepKeepsExclusive(s, sys, a);
    StepKeepsTimed(sys, a);
    StepKeepsSequential(s, sys, a);
    StepKeepsReplies(s, sys, a);
  }

  // ----- every interleaving -----

  // A sequence of actions, by any threads in any order, each enabled where it stands.
  ghost predicate Possible<V>(sys: System<V>, acts: seq<Action<V>>)
    decreases |acts|
  {
    acts == [] || (Enabled(sys, acts[0]) && Possible(Do(sys, acts[0]), acts[1..]))
  }

  ghost function After<V>(sys: System<V>, acts: seq<Action<V>>): System<V>
    requires Possible(sys, acts)
    decreases |acts|
  {
    if acts == [] then sys else After(Do(sys, acts[0]), acts[1..])
  }

  lemma {:induction false} InterleavingKeepsInv<V>(s: State<V>, sys: System<V>, acts: seq<Action<V>>)
    requires Inv(s, sys) && Possible(sys, acts)
    ensures Inv(s, After(sys, acts))
    decreases |acts|
  {
    if acts != [] {
      StepKeepsInv(s, sys, acts[0]);
      InterleavingKeepsInv(s, Do(sys, acts[0]), acts[1..]);
    }
  }

  lemma StartsInv<V>(s: State<V>, n: nat)
    ensures Inv(s, Start(s, n))
  {
  }

  predicate ReturnedBefore<V>(a: Call<V>, b: Call<V>) {
    a.returned.Some? && a.returned.value.1 < b.calledAt
  }

  // Every interleaving is linearizable: each returned reply is the one of the sequential run of the
  // logged operations, this order respects real time, and between calls the state is the run's.
  lemma {:induction false} Linearizable<V>(s: State<V>, n: nat, acts: seq<Action<V>>)
    requires Possible(Start(s, n), acts)
    ensures var sys := After(Start(s, n), acts);
            var seqrun := Run(s, sys.log);
            && |sys.calls| == |sys.log|
            && (forall i :: 0 <= i < |sys.calls| && sys.calls[i].returned.Some? ==>
                  i < |seqrun.replies| && sys.calls[i].returned.value.0 == seqrun.replies[i])
            && (forall i, j :: 0 <= i < |sys.calls| && 0 <= j < |sys.calls| ==> ReturnedBefore(sys.calls[i], sys.calls[j]) ==> i < j)
            && (sys.owner.None? ==> sys.shared == seqrun.state)
  {
    var sys := After(Start(s, n), acts);
    StartsInv(s, n);
    InterleavingKeepsInv(s, Start(s, n), acts);
    if sys.owner.Some? {
      RunSnoc(s, sys.Completed(), sys.log[|sys.log| - 1]);
      assert sys.log == sys.Completed() + [sys.log[|sys.log| - 1]];
    }
  }

  // The program aborts only where the sequential run of the logged operations does.
  lemma {:induction false} AbortsLikeTheRun<V>(s: State<V>, n: nat, acts: seq<Action<V>>)
    requires Possible(Start(s, n), acts) && After(Start(s, n), acts).Aborted()
    ensures Run(s, After(Start(s, n), acts).log).Crashed()
  {
    StartsInv(s, n);
    InterleavingKeepsInv(s, Start(s, n), acts);
    AbortIsInRun(s, After(Start(s, n), acts));
  }

  lemma {:induction false} AbortIsInRun<V>(s: State<V>, sys: System<V>)
    requires Inv(s, sys) && sys.Aborted()
    ensures Run(s, sys.log).Crashed()
  {
    var op := sys.log[|sys.log| - 1];
    assert sys.log == sys.Completed() + [op];
    FaultIsInRun(s, sys.Completed(), op);
  }

  lemma {:induction false} FaultIsInRun<V>(s: State<V>, ops: seq<Op<V>>, op: Op<V>)
    requires !Run(s, ops).Crashed() && Step(Run(s, ops).state, op).reply.Faulty()
    ensures Run(s, ops + [op]).Crashed()
  {
    RunSnoc(s, ops, op);
  }

  // A thread that is to go on by itself: to take the mutex, to work, to give it back, to return.
  predicate Progress<V>(a: Action<V>) {
    !a.Invoke?
  }

  // Nobody ever waits for ever for the two mutexes: unless the program has aborted or every thread
  // is idle, some thread can go on.
  lemma NoDeadlock<V>(s: State<V>, n: nat, acts: seq<Action<V>>) returns (a: Action<V>)
    requires Possible(Start(s, n), acts)
    requires var sys := After(Start(s, n), acts);
             !sys.Aborted() && exists t :: 0 <= t < |sys.threads| && !sys.threads[t].Idle?
    ensures Progress(a) && Enabled(After(Start(s, n), acts), a)
  {
    var sys := After(Start(s, n), acts);
    StartsInv(s, n);
    InterleavingKeepsInv(s, Start(s, n), acts);
    if sys.owner.Some? {
      a := OwnerCanGoOn(s, sys);
    } else {
      var t :| 0 <= t < |sys.threads| && !sys.threads[t].Idle?;
      a := if sys.threads[t].Waiting? then Lock(t) else Return(t);
    }
  }

  lemma OwnerCanGoOn<V>(s: State<V>, sys: System<V>) returns (a: Action<V>)
    requires Inv(s, sys) && sys.owner.Some? && !sys.Aborted()
    ensures Progress(a) && Enabled(sys, a) && a.t == sys.owner.value
    ensures a.Work? <==> !sys.threads[a.t].pc.Finished?
  {
    var t := sys.owner.value;
    var l := sys.threads[t];
    if l.pc.Finished? {
      a := Unlock(t);
    } else {
      var pick: Key := if k :| k in sys.shared.table then k else NO_KEY;
      TurnMoves(sys.shared, l.op, l.pc, pick);
      a := Work(t, pick);
    }
  }

  // In every reachable state nothing but the mutex holds a thread up: it can ask for any call, take
  // the mutex as soon as that is free, go on inside, and return.
  lemma {:induction false} OnlyMutexBlocks<V>(s: State<V>, n: nat, acts: seq<Action<V>>, t: Thread, op: Op<V>)
    requires Possible(Start(s, n), acts) && !After(Start(s, n), acts).Aborted()
    requires t < |After(Start(s, n), acts).threads|
    ensures var sys := After(Start(s, n), acts);
            match sys.threads[t]
            case Idle => Enabled(sys, Invoke(t, op))
            case Waiting(_, _) => Enabled(sys, Lock(t)) <==> sys.owner.None?
            case Inside(_, _) => sys.owner == Some(t) && exists a :: Enabled(sys, a) && a.t == t && Progress(a)
            case Leaving(_, _) => Enabled(sys, Return(t))
  {
    var sys := After(Start(s, n), acts);
    StartsInv(s, n);
    InterleavingKeepsInv(s, Start(s, n), acts);
    if sys.threads[t].Inside? {
      var a := OwnerCanGoOn(s, sys);
    }
  }

  // ----- nobody keeps the mutex for ever -----

  function WorkSteps<V>(acts: seq<Action<V>>): nat {
    if acts == [] then 0 else (if acts[0].Work? then 1 else 0) + WorkSteps(acts[1..])
  }

  lemma StepGetsOwnerCloser<V>(s: State<V>, sys: System<V>, a: Action<V>)
    requires Inv(s, sys) && sys.owner.Some? && Enabled(sys, a) && !a.Unlock?
    ensures Inv(s, Do(sys, a)) && Do(sys, a).owner == sys.owner
    ensures var t, next := sys.owner.value, Do(sys, a);
            Rank(next.shared, next.threads[t].pc) + (if a.Work? then 1 else 0) <= Rank(sys.shared, sys.threads[t].pc)
  {
    StepKeepsInv(s, sys, a);
    if a.Work? {
      var l := sys.threads[a.t];
      TurnGetsCloser(sys.shared, l.op, l.pc, a.pick);
    }
  }

  // However the other threads' steps come in between, the owner of the mutex works only as many
  // steps as its rank says before it gives the mutex back.
  lemma {:induction false} OwnerFinishes<V>(s: State<V>, sys: System<V>, acts: seq<Action<V>>)
    requires Inv(s, sys) && sys.owner.Some? && Possible(sys, acts)
    requires forall i :: 0 <= i < |acts| ==> !acts[i].Unlock?
    ensures WorkSteps(acts) <= Rank(sys.shared, sys.threads[sys.owner.value].pc)
    decreases |acts|
  {
    if acts != [] {
      StepGetsOwnerCloser(s, sys, acts[0]);
      OwnerFinishes(s, Do(sys, acts[0]), acts[1..]);
    }
  }

  // ----- memory in every reachable state -----

  predicate ProperAction<V>(a: Action<V>) {
    a.Invoke? ==> ProperSize(a.op)
  }

  ghost predicate ProperThreads<V>(sys: System<V>) {
    forall t :: 0 <= t < |sys.threads| ==>
      && (sys.threads[t].Waiting? ==> ProperSize(sys.threads[t].op))
      && (sys.threads[t].Inside? ==> ProperSize(sys.threads[t].op))
  }

  ghost predicate Counted<V>(sys: System<V>) {
    2 * sys.shared.maxmem <= INT_MAX && ProperThreads(sys) && (Conserved(sys.shared) || sys.Aborted())
  }

  lemma StepKeepsCounted<V>(s: State<V>, sys: System<V>, a: Action<V>)
    requires Inv(s, sys) && Counted(sys) && Enabled(sys, a) && ProperAction(a)
    ensures Counted(Do(sys, a))
  {
    if a.Work? {
      var l := sys.threads[a.t];
      TurnKeepsConserved(sys.shared, l.op, l.pc, a.pick);
    }
  }

  lemma {:induction false} InterleavingKeepsCounted<V>(s: State<V>, sys: System<V>, acts: seq<Action<V>>)
    requires Inv(s, sys) && Counted(sys) && Possible(sys, acts)
    requires forall i :: 0 <= i < |acts| ==> ProperAction(acts[i])
    ensures Counted(After(sys, acts))
    decreases |acts|
  {
    if acts != [] {
      StepKeepsInv(s, sys, acts[0]);
      StepKeepsCounted(s, sys, acts[0]);
      InterleavingKeepsCounted(s, Do(sys, acts[0]), acts[1..]);
    }
  }

  // Whatever the threads do, in every reachable state, also in the middle of calls, the byte count
  // is the bytes in the table and at most the capacity, as long as the program has not aborted.
  lemma {:induction false} MemoryInEveryState<V>(s: State<V>, n: nat, acts: seq<Action<V>>)
    requires Conserved(s) && 2 * s.maxmem <= INT_MAX && Possible(Start(s, n), acts)
    requires forall i :: 0 <= i < |acts| ==> ProperAction(acts[i])
    ensures var sys := After(Start(s, n), acts);
            sys.Aborted() || sys.shared.cur == Mem(sys.shared.table) <= sys.shared.maxmem
  {
    StartsInv(s, n);
    InterleavingKeepsCounted(s, Start(s, n), acts);
  }
}
