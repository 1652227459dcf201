// Every sequential run can come about: a thread that is given the mutex whenever it asks makes the
// calls of the run, one after the other, and each returns. So the steps of the threads are neither
// stuck nor stopped by an abort that no sequential run knows.

module ThreadRuns {
  import opened Basics
  import opened CacheModel
  import opened CallSteps
  import opened Threads
  import opened ThreadHistory

  lemma {:induction false} PossibleConcat<V>(sys: System<V>, a: seq<Action<V>>, b: seq<Action<V>>)
    requires Possible(sys, a) && Possible(After(sys, a), b)
    ensures Possible(sys, a + b) && After(sys, a + b) == After(After(sys, a), b)
    decreases |a|
  {
    if a == [] {
      assert a + b == b;
    } else {
      PossibleConcat(Do(sys, a[0]), a[1..], b);
      assert (a + b)[1..] == a[1..] + b;
    }
  }

  lemma {:induction false} OneAction<V>(sys: System<V>, a: Action<V>)
    requires Enabled(sys, a)
    ensures Possible(sys, [a]) && After(sys, [a]) == Do(sys, a)
  {
    assert [a][1..] == [];
  }

  ghost predicate Alone<V>(sys: System<V>, t: Thread) {
    t < |sys.threads| && forall u :: 0 <= u < |sys.threads| && u != t ==> sys.threads[u].Idle?
  }

  // What the call inside will answer is no fault.
  ghost predicate GoesWell<V>(sys: System<V>, t: Thread) {
    && Alone(sys, t) && sys.threads[t].Inside? && At(sys.shared, sys.threads[t].op, sys.threads[t].pc)
    && !Rest(sys.shared, sys.threads[t].op, sys.threads[t].pc).reply.Faulty()
  }

  lemma {:induction false} WorkGoesWell<V>(s: State<V>, sys: System<V>, t: Thread) returns (a: Action<V>)
    requires Inv(s, sys) && sys.owner == Some(t) && GoesWell(sys, t) && !sys.threads[t].pc.Finished?
    ensures Enabled(sys, a)
    ensures var next := Do(sys, a);
            && next.owner == Some(t) && GoesWell(next, t) && next.log == sys.log && |next.threads| == |sys.threads|
            && Rank(next.shared, next.threads[t].pc) < Rank(sys.shared, sys.threads[t].pc)
  {
    var l := sys.threads[t];
    a := OwnerCanGoOn(s, sys);
    TurnKeepsRest(sys.shared, l.op, l.pc, a.pick);
    TurnGetsCloser(sys.shared, l.op, l.pc, a.pick);
  }

  lemma {:induction false} WorksToItsEnd<V>(s: State<V>, sys: System<V>, t: Thread) returns (acts: seq<Action<V>>)
    requires Inv(s, sys) && sys.owner == Some(t) && GoesWell(sys, t)
    ensures Possible(sys, acts)
    ensures var after := After(sys, acts);
            && Inv(s, after) && after.owner == Some(t) && after.log == sys.log && |after.threads| == |sys.threads|
            && GoesWell(after, t) && after.threads[t].pc.Finished?
    decreases Rank(sys.shared, sys.threads[t].pc)
  {
    if sys.threads[t].pc.Finished? {
      acts := [];
    } else {
      var a := WorkGoesWell(s, sys, t);
      StepKeepsInv(s, sys, a);
      var rest := WorksToItsEnd(s, Do(sys, a), t);
      acts := [a] + rest;
      assert acts[1..] == rest;
    }
  }

  lemma {:induction false} TwoActions<V>(s: State<V>, sys: System<V>, a: Action<V>, b: Action<V>)
    requires Inv(s, sys) && Enabled(sys, a) && Enabled(Do(sys, a), b)
    ensures Possible(sys, [a, b]) && After(sys, [a, b]) == Do(Do(sys, a), b) && Inv(s, Do(Do(sys, a), b))
  {
    StepKeepsInv(s, sys, a);
    StepKeepsInv(s, Do(sys, a), b);
    OneAction(sys, a);
    OneAction(Do(sys, a), b);
    PossibleConcat(sys, [a], [b]);
    assert [a] + [b] == [a, b];
  }

  // From asking for a call to being inside it.
  lemma {:induction false} Enters<V>(s: State<V>, sys: System<V>, t: Thread, op: Op<V>)
    requires Inv(s, sys) && sys.owner.None? && Alone(sys, t) && sys.threads[t].Idle?
    requires !Step(sys.shared, op).reply.Faulty()
    ensures Possible(sys, [Invoke(t, op), Lock(t)])
    ensures var after := After(sys, [Invoke(t, op), Lock(t)]);
            && Inv(s, after) && after.owner == Some(t) && GoesWell(after, t)
            && after.log == sys.log + [op] && |after.threads| == |sys.threads|
  {
    TwoActions(s, sys, Invoke(t, op), Lock(t));
  }

  // From the end of its work to its return.
  lemma {:induction false} Leaves<V>(s: State<V>, sys: System<V>, t: Thread)
    requires Inv(s, sys) && sys.owner == Some(t) && GoesWell(sys, t) && sys.threads[t].pc.Finished?
    ensures Possible(sys, [Unlock(t), Return(t)])
    ensures var after := After(sys, [Unlock(t), Return(t)]);
            && Inv(s, after) && after.owner.None? && after.log == sys.log
            && |after.threads| == |sys.threads| && Alone(after, t) && after.threads[t].Idle?
  {
    TwoActions(s, sys, Unlock(t), Return(t));
  }

  lemma {:induction false} OneCall<V>(s: State<V>, sys: System<V>, t: Thread, op: Op<V>) returns (acts: seq<Action<V>>)
    requires Inv(s, sys) && sys.owner.None? && Alone(sys, t) && sys.threads[t].Idle?
    requires !Step(sys.shared, op).reply.Faulty()
    ensures Possible(sys, acts)
    ensures var after := After(sys, acts);
            && Inv(s, after) && after.owner.None? && after.log == sys.log + [op]
            && |after.threads| == |sys.threads| && Alone(after, t) && after.threads[t].Idle?
  {
    var first := [Invoke(t, op), Lock(t)];
    Enters(s, sys, t, op);
    var work := WorksToItsEnd(s, After(sys, first), t);
    var last := [Unlock(t), Return(t)];
    PossibleConcat(sys, first, work);
    Leaves(s, After(sys, first + work), t);
    PossibleConcat(sys, first + work, last);
    acts := first + work + last;
  }

  lemma {:induction false} CallByCall<V>(s: State<V>, n: nat, t: Thread, ops: seq<Op<V>>) returns (acts: seq<Action<V>>)
    requires t < n && !Run(s, ops).Crashed()
    ensures Possible(Start(s, n), acts)
    ensures var sys := After(Start(s, n), acts);
            Inv(s, sys) && sys.owner.None? && sys.log == ops && |sys.threads| == n && Alone(sys, t) && sys.threads[t].Idle?
    decreases |ops|
  {
    StartsInv(s, n);
    if ops == [] {
      acts := [];
    } else {
      var m := |ops| - 1;
      var op := ops[m];
      assert ops == ops[..m] + [op];
      PrefixGoesWell(s, ops[..m], op);
      var before := CallByCall(s, n, t, ops[..m]);
      var call := OneCall(s, After(Start(s, n), before), t, op);
      PossibleConcat(Start(s, n), before, call);
      acts := before + call;
    }
  }

  lemma {:induction false} PrefixGoesWell<V>(s: State<V>, ops: seq<Op<V>>, op: Op<V>)
    requires !Run(s, ops + [op]).Crashed()
    ensures !Run(s, ops).Crashed() && !Step(Run(s, ops).state, op).reply.Faulty()
    decreases |ops|
  {
    if ops == [] {
      assert [] + [op] == [op];
      RunTail(s, [op]);
    } else {
      RunTail(s, ops + [op]);
      assert (ops + [op])[1..] == ops[1..] + [op];
      PrefixGoesWell(Step(s, ops[0]).state, ops[1..], op);
      RunUnfold(s, ops);
    }
  }

  // Every sequential run that does not abort is the record of an interleaving in which each of its
  // calls has returned, with the reply of the run.
  lemma {:induction false} EveryRunIsPossible<V>(s: State<V>, n: nat, t: Thread, ops: seq<Op<V>>) returns (acts: seq<Action<V>>)
    requires t < n && !Run(s, ops).Crashed()
    ensures Possible(Start(s, n), acts)
    ensures var sys := After(Start(s, n), acts);
            && sys.log == ops && |sys.calls| == |ops| && sys.shared == Run(s, ops).state && !sys.Aborted()
            && forall i :: 0 <= i < |ops| ==>
                 && i < |Run(s, ops).replies| && sys.calls[i].returned.Some?
                 && sys.calls[i].returned.value.0 == Run(s, ops).replies[i]
  {
    acts := CallByCall(s, n, t, ops);
    RecordIsHistory(s, n, acts);
  }
}
