// What the threads' record says is what they did: each call in it was asked for by its thread, and
// its times are those of the thread's own actions. And every sequential run is an interleaving.

module ThreadHistory {
  import opened Basics
  import opened CacheModel
  import opened CallSteps
  import opened Threads

  // ----- what the threads did -----

  // The operations a thread asked for, with the times at which it did.
  function Invoked<V>(past: seq<Action<V>>, t: Thread): seq<(Op<V>, nat)> {
    if past == [] then []
    else
      var n := |past| - 1;
      Invoked(past[..n], t) + (if past[n].Invoke? && past[n].t == t then [(past[n].op, n)] else [])
  }

  // The threads that took the mutex, and when.
  function Locked<V>(past: seq<Action<V>>): seq<(Thread, nat)> {
    if past == [] then []
    else
      var n := |past| - 1;
      Locked(past[..n]) + (if past[n].Lock? then [(past[n].t, n)] else [])
  }

  // The times at which a thread's calls returned.
  function Returned<V>(past: seq<Action<V>>, t: Thread): seq<nat> {
    if past == [] then []
    else
      var n := |past| - 1;
      Returned(past[..n], t) + (if past[n].Return? && past[n].t == t then [n] else [])
  }

  // ----- what the record says -----

  function InvokedInRecord<V>(log: seq<Op<V>>, calls: seq<Call<V>>, t: Thread): seq<(Op<V>, nat)>
    requires |log| == |calls|
  {
    if calls == [] then []
    else
      var n := |calls| - 1;
      InvokedInRecord(log[..n], calls[..n], t) + (if calls[n].thread == t then [(log[n], calls[n].calledAt)] else [])
  }

  function LockedInRecord<V>(calls: seq<Call<V>>): seq<(Thread, nat)> {
    seq(|calls|, i requires 0 <= i < |calls| => (calls[i].thread, calls[i].lockedAt))
  }

  function ReturnedInRecord<V>(calls: seq<Call<V>>, t: Thread): seq<nat> {
    if calls == [] then []
    else
      var n := |calls| - 1;
      ReturnedInRecord(calls[..n], t) +
      (if calls[n].thread == t && calls[n].returned.Some? then [calls[n].returned.value.1] else [])
  }

  // The call a thread is waiting with is not in the record yet.
  function Outstanding<V>(l: Local<V>): seq<(Op<V>, nat)> {
    if l.Waiting? then [(l.op, l.at)] else []
  }

  // ----- they agree -----

  // Index i is the last call of a thread, and has not returned.
  ghost predicate LastOpen<V>(calls: seq<Call<V>>, t: Thread, i: nat) {
    && i < |calls| && calls[i].thread == t && calls[i].returned.None?
    && forall j :: i < j < |calls| ==> calls[j].thread != t
  }

  // A thread inside or leaving is in its last call.
  ghost predicate AtLast<V>(sys: System<V>) {
    forall t :: 0 <= t < |sys.threads| ==>
      && (sys.threads[t].Leaving? ==> LastOpen(sys.calls, t, sys.threads[t].index))
      && (sys.threads[t].Inside? ==> sys.calls != [] && LastOpen(sys.calls, t, |sys.calls| - 1))
  }

  // All other calls have returned.
  ghost predicate NoneForgotten<V>(sys: System<V>) {
    forall i :: 0 <= i < |sys.calls| ==>
      && sys.calls[i].thread < |sys.threads|
      && (sys.calls[i].returned.None? ==>
            var l := sys.threads[sys.calls[i].thread];
            (l.Inside? && i == |sys.calls| - 1) || (l.Leaving? && i == l.index))
  }

  ghost predicate Open<V>(sys: System<V>) {
    AtLast(sys) && NoneForgotten(sys)
  }

  // The record is the history, thread by thread, and in the order of taking the mutex.
  ghost predicate Recorded<V>(past: seq<Action<V>>, sys: System<V>) {
    && sys.now == |past| && |sys.log| == |sys.calls|
    && Locked(past) == LockedInRecord(sys.calls)
    && forall t :: 0 <= t < |sys.threads| ==>
         && Invoked(past, t) == InvokedInRecord(sys.log, sys.calls, t) + Outstanding(sys.threads[t])
         && Returned(past, t) == ReturnedInRecord(sys.calls, t)
  }

  // ----- every step keeps them -----

  lemma StepKeepsAtLast<V>(sys: System<V>, a: Action<V>)
    requires Exclusive(sys) && |sys.calls| == |sys.log| && Open(sys) && Enabled(sys, a)
    ensures AtLast(Do(sys, a))
  {
  }

  lemma StepForgetsNone<V>(sys: System<V>, a: Action<V>)
    requires Exclusive(sys) && |sys.calls| == |sys.log| && Open(sys) && Enabled(sys, a)
    ensures NoneForgotten(Do(sys, a))
  {
  }

  lemma {:induction false} PastGrows<V>(past: seq<Action<V>>, a: Action<V>, t: Thread)
    ensures var n := |past|;
            && Invoked(past + [a], t) == Invoked(past, t) + (if a.Invoke? && a.t == t then [(a.op, n)] else [])
            && Locked(past + [a]) == Locked(past) + (if a.Lock? then [(a.t, n)] else [])
            && Returned(past + [a], t) == Returned(past, t) + (if a.Return? && a.t == t then [n] else [])
  {
    assert (past + [a])[..|past|] == past;
  }

  lemma {:induction false} RecordGrows<V>(log: seq<Op<V>>, calls: seq<Call<V>>, op: Op<V>, c: Call<V>, t: Thread)
    requires |log| == |calls|
    ensures InvokedInRecord(log + [op], calls + [c], t) ==
            InvokedInRecord(log, calls, t) + (if c.thread == t then [(op, c.calledAt)] else [])
    ensures LockedInRecord(calls + [c]) == LockedInRecord(calls) + [(c.thread, c.lockedAt)]
    ensures c.returned.None? ==> ReturnedInRecord(calls + [c], t) == ReturnedInRecord(calls, t)
  {
    assert (log + [op])[..|log|] == log && (calls + [c])[..|calls|] == calls;
  }

  // A return is noted where the thread's last call stands.
  lemma {:induction false} ReturnIsNoted<V>(log: seq<Op<V>>, calls: seq<Call<V>>, t: Thread, i: nat, r: Reply<V>, now: nat, u: Thread)
    requires |log| == |calls| && LastOpen(calls, t, i)
    ensures var after := calls[i := calls[i].(returned := Some((r, now)))];
            && InvokedInRecord(log, after, u) == InvokedInRecord(log, calls, u)
            && LockedInRecord(after) == LockedInRecord(calls)
            && ReturnedInRecord(after, u) == ReturnedInRecord(calls, u) + (if u == t then [now] else [])
    decreases |calls|
  {
    var n := |calls| - 1;
    var after := calls[i := calls[i].(returned := Some((r, now)))];
    if i < n {
      ReturnIsNoted(log[..n], calls[..n], t, i, r, now, u);
      assert after[..n] == calls[..n][i := calls[i].(returned := Some((r, now)))];
    } else {
      assert after[..n] == calls[..n];
    }
  }

  lemma {:induction false} StepKeepsRecorded<V>(past: seq<Action<V>>, sys: System<V>, a: Action<V>)
    requires Recorded(past, sys) && Open(sys) && Enabled(sys, a)
    ensures Recorded(past + [a], Do(sys, a))
  {
    var next := Do(sys, a);
    PastGrows(past, a, 0);
    match a {
      case Lock(t) => RecordGrows(sys.log, sys.calls, sys.threads[t].op, next.calls[|sys.calls|], t);
      case Return(t) => ReturnIsNoted(sys.log, sys.calls, t, sys.threads[t].index, sys.threads[t].reply, sys.now, t);
      case Invoke(_, _) =>
      case Work(_, _) =>
      case Unlock(_) =>
    }
    forall t | 0 <= t < |next.threads|
      ensures Invoked(past + [a], t) == InvokedInRecord(next.log, next.calls, t) + Outstanding(next.threads[t])
      ensures Returned(past + [a], t) == ReturnedInRecord(next.calls, t)
    {
      ThreadKeepsRecorded(past, sys, a, t);
    }
  }

  lemma {:induction false} ThreadKeepsRecorded<V>(past: seq<Action<V>>, sys: System<V>, a: Action<V>, t: Thread)
    requires Recorded(past, sys) && Open(sys) && Enabled(sys, a) && t < |sys.threads|
    ensures var next := Do(sys, a);
            && |next.log| == |next.calls|
            && Invoked(past + [a], t) == InvokedInRecord(next.log, next.calls, t) + Outstanding(next.threads[t])
            && Returned(past + [a], t) == ReturnedInRecord(next.calls, t)
  {
    var next := Do(sys, a);
    PastGrows(past, a, t);
    if a.Lock? {
      RecordGrows(sys.log, sys.calls, sys.threads[a.t].op, next.calls[|sys.calls|], t);
    } else if a.Return? {
      ReturnIsNoted(sys.log, sys.calls, a.t, sys.threads[a.t].index, sys.threads[a.t].reply, sys.now, t);
    }
  }

  lemma {:induction false} AfterSnoc<V>(sys: System<V>, acts: seq<Action<V>>)
    requires acts != [] && Possible(sys, acts)
    ensures var n := |acts| - 1;
            && Possible(sys, acts[..n]) && Enabled(After(sys, acts[..n]), acts[n])
            && After(sys, acts) == Do(After(sys, acts[..n]), acts[n])
    decreases |acts|
  {
    if |acts| > 1 {
      var n := |acts| - 1;
      AfterSnoc(Do(sys, acts[0]), acts[1..]);
      assert acts[..n][1..] == acts[1..][..n - 1];
    }
  }

  lemma {:induction false} InterleavingKeepsOpen<V>(s: State<V>, sys: System<V>, acts: seq<Action<V>>)
    requires Inv(s, sys) && Open(sys) && Possible(sys, acts)
    ensures Open(After(sys, acts))
    decreases |acts|
  {
    if acts != [] {
      var n := |acts| - 1;
      AfterSnoc(sys, acts);
      InterleavingKeepsOpen(s, sys, acts[..n]);
      InterleavingKeepsInv(s, sys, acts[..n]);
      StepKeepsAtLast(After(sys, acts[..n]), acts[n]);
      StepForgetsNone(After(sys, acts[..n]), acts[n]);
    }
  }

  lemma {:induction false} NextIsRecorded<V>(acts: seq<Action<V>>, before: System<V>, sys: System<V>)
    requires acts != [] && Recorded(acts[..|acts| - 1], before) && Open(before)
    requires Enabled(before, acts[|acts| - 1]) && sys == Do(before, acts[|acts| - 1])
    ensures Recorded(acts, sys)
  {
    var n := |acts| - 1;
    StepKeepsRecorded(acts[..n], before, acts[n]);
    assert acts[..n] + [acts[n]] == acts;
  }

  lemma {:induction false} InterleavingIsRecorded<V>(s: State<V>, sys: System<V>, acts: seq<Action<V>>)
    requires Inv(s, sys) && Open(sys) && Recorded([], sys) && Possible(sys, acts)
    ensures Recorded(acts, After(sys, acts))
    decreases |acts|
  {
    if acts != [] {
      var n := |acts| - 1;
      AfterSnoc(sys, acts);
      InterleavingIsRecorded(s, sys, acts[..n]);
      InterleavingKeepsOpen(s, sys, acts[..n]);
      NextIsRecorded(acts, After(sys, acts[..n]), After(sys, acts));
    }
  }

  // In every interleaving each thread's calls in the record, with the one it is waiting with, are
  // those it asked for, in order and with their times; the record is in the order of taking the
  // mutex; each return is noted with its time; and a thread that is idle has no call open.
  lemma {:induction false} RecordIsHistory<V>(s: State<V>, n: nat, acts: seq<Action<V>>)
    requires Possible(Start(s, n), acts)
    ensures var sys := After(Start(s, n), acts);
            && Recorded(acts, sys)
            && forall i :: 0 <= i < |sys.calls| ==>
                 && sys.calls[i].thread < |sys.threads|
                 && (sys.threads[sys.calls[i].thread].Idle? || sys.threads[sys.calls[i].thread].Waiting? ==>
                       sys.calls[i].returned.Some?)
  {
    StartsInv(s, n);
    InterleavingKeepsOpen(s, Start(s, n), acts);
    InterleavingIsRecorded(s, Start(s, n), acts);
  }
}
