// The cache's operations as functions of its state, in the machine arithmetic of the program:
// sizes are unsigned 32-bit, `size_change` and every comparison are done in signed int. The type
// parameter V is what a row stores; no operation looks into it.

module CacheModel {
  import opened Basics
  import opened EvictionPolicy

  datatype State<+V> = State(maxmem: u32, cur: u32, table: Table<V>, evictor: EvictorModel)

  // The assertions an operation can run into: in `free`, and on entry to, in the eviction loop
  // of, and on exit from `set`.
  datatype Check = InFree | OnEntry | OnEviction | OnExit

  datatype Reply<+V> =
    | Stored | TooLarge | NoRoom
    | Hit(data: V, size: u32) | Miss
    | Deleted(found: bool)
    | Cleared
    | Used(bytes: nat)
    | AssertFails(check: Check) | SignedOverflow
  {
    // The program does not go on after these.
    predicate Faulty() {
      AssertFails? || SignedOverflow?
    }
  }

  datatype Outcome<+V> = Outcome(reply: Reply<V>, state: State<V>)

  function Init<V>(maxmem: u32, evictor: EvictorModel): State<V> {
    State(maxmem, 0, map[], evictor)
  }

  function Freed<V>(s: State<V>, k: Key): State<V>
    requires k in s.table && s.table[k].size <= s.cur
  {
    s.(cur := s.cur - s.table[k].size, table := s.table - {k})
  }

  // Inserting a row adds its size in unsigned arithmetic.
  function WithRow<V>(s: State<V>, k: Key, e: Entry<V>): State<V> {
    s.(table := s.table[k := e], cur := (s.cur + e.size) % TWO_32)
  }

  function WithTouch<V>(s: State<V>, k: Key): State<V> {
    s.(evictor := s.evictor.Touch(k))
  }

  function WithPop<V>(s: State<V>): State<V> {
    s.(evictor := s.evictor.Pop())
  }

  // ----- set -----

  function SizeChange<V>(s: State<V>, key: Key, size: u32): int {
    if key in s.table then AsInt(size) - AsInt(s.table[key].size) else AsInt(size)
  }

  function Set<V>(s: State<V>, key: Key, e: Entry<V>): Outcome<V> {
    var change := SizeChange(s, key, e.size);
    if !FitsInt(change) then Outcome(SignedOverflow, s)
    else if s.cur > s.maxmem then Outcome(AssertFails(OnEntry), s)
    else if change > AsInt(s.maxmem) then Outcome(TooLarge, s)
    else if s.evictor.NoEvictor? && FitsInt(AsInt(s.cur) + change) && AsInt(s.cur) + change > AsInt(s.maxmem) then
      Outcome(NoRoom, s)
    else MakeRoom(s, key, e, change)
  }

  // The eviction loop, from a given value of `size_change` on, and what follows it. Without an
  // evictor the guards of `set` let nothing through that would enter the loop.
  function MakeRoom<V>(s: State<V>, key: Key, e: Entry<V>, change: int): Outcome<V>
    decreases QueueLength(s), 1
  {
    var sum := AsInt(s.cur) + change;
    if !FitsInt(sum) then Outcome(SignedOverflow, s)
    else if sum <= AsInt(s.maxmem) || s.evictor.NoEvictor? then Replace(s, key, e)
    else AfterAnswer(WithPop(s), Front(s.evictor.queue), key, e, change)
  }

  // A turn of the loop, once the evictor has answered.
  function AfterAnswer<V>(s: State<V>, k: Key, key: Key, e: Entry<V>, change: int): Outcome<V>
    decreases if k == NO_KEY then 0 else QueueLength(s), if k == NO_KEY then 0 else 2
  {
    if k == NO_KEY then Outcome(AssertFails(OnEviction), s)
    else if k !in s.table then MakeRoom(s, key, e, change)
    else if s.cur < s.table[k].size then Outcome(AssertFails(InFree), s)
    else MakeRoom(Freed(s, k), key, e, if k == key then AsInt(e.size) else change)
  }

  function QueueLength<V>(s: State<V>): nat {
    if s.evictor.NoEvictor? then 0 else |s.evictor.queue|
  }

  // What follows the loop: free the old row if it is still there, insert, touch.
  function Replace<V>(s: State<V>, key: Key, e: Entry<V>): Outcome<V> {
    if key !in s.table then Insert(s, key, e)
    else if s.cur < s.table[key].size then Outcome(AssertFails(InFree), s)
    else Insert(Freed(s, key), key, e)
  }

  function Insert<V>(s: State<V>, key: Key, e: Entry<V>): Outcome<V>
    requires key !in s.table
  {
    var t := WithRow(s, key, e);
    if t.cur > t.maxmem then Outcome(AssertFails(OnExit), t)
    else Outcome(Stored, WithTouch(t, key))
  }

  // ----- get, del, reset, space_used -----

  function Get<V>(s: State<V>, key: Key): Outcome<V> {
    if key !in s.table then Outcome(Miss, s)
    else Outcome(Hit(s.table[key].data, s.table[key].size), WithTouch(s, key))
  }

  function Del<V>(s: State<V>, key: Key): Outcome<V> {
    if key !in s.table then Outcome(Deleted(false), s)
    else if s.cur < s.table[key].size then Outcome(AssertFails(InFree), s)
    else Outcome(Deleted(true), Freed(s, key))
  }

  // Draining stops at the first "", popped or answered for an empty queue.
  function Drained(q: seq<Key>): seq<Key> {
    if q == [] then []
    else if q[0] == NO_KEY then q[1..]
    else Drained(q[1..])
  }

  function Drainage(ev: EvictorModel): EvictorModel {
    if ev.NoEvictor? then NoEvictor else ev.(queue := Drained(ev.queue))
  }

  // The rows are freed in no particular order, so the state after a failed assertion is left open.
  ghost function Reset<V>(s: State<V>): Outcome<V> {
    if s.cur < Mem(s.table) then Outcome(AssertFails(InFree), s)
    else Outcome(Cleared, Init(s.maxmem, Drainage(s.evictor)))
  }

  // `space_used`: the byte count.
  function SpaceUsed<V>(s: State<V>): Outcome<V> {
    Outcome(Used(s.cur), s)
  }

  // ----- runs -----

  datatype Op<+V> = SetOp(key: Key, entry: Entry<V>) | GetOp(key: Key) | DelOp(key: Key) | ResetOp | SpaceOp

  ghost function Step<V>(s: State<V>, op: Op<V>): Outcome<V> {
    match op
    case SetOp(k, e) => Set(s, k, e)
    case GetOp(k) => Get(s, k)
    case DelOp(k) => Del(s, k)
    case ResetOp => Reset(s)
    case SpaceOp => SpaceUsed(s)
  }

  // The replies of a run and the state it ends in; a fault ends the run.
  datatype Trace<+V> = Trace(replies: seq<Reply<V>>, state: State<V>) {
    predicate Crashed() {
      replies != [] && replies[|replies| - 1].Faulty()
    }
  }

  ghost function Run<V>(s: State<V>, ops: seq<Op<V>>): (t: Trace<V>)
    ensures |t.replies| <= |ops|
    decreases |ops|
  {
    if ops == [] then Trace([], s)
    else
      var o := Step(s, ops[0]);
      if o.reply.Faulty() then Trace([o.reply], o.state)
      else
        var rest := Run(o.state, ops[1..]);
        Trace([o.reply] + rest.replies, rest.state)
  }

  lemma {:induction false} RunUnfold<V>(s: State<V>, ops: seq<Op<V>>)
    requires ops != [] && !Step(s, ops[0]).reply.Faulty()
    ensures var o := Step(s, ops[0]);
            var t, rest := Run(s, ops), Run(o.state, ops[1..]);
            && t.replies != [] && t.replies[0] == o.reply && t.replies[1..] == rest.replies
            && t.state == rest.state && (t.Crashed() <==> rest.Crashed())
  {
  }

  lemma {:induction false} RunTail<V>(s: State<V>, ops: seq<Op<V>>)
    requires ops != [] && !Run(s, ops).Crashed()
    ensures var o := Step(s, ops[0]);
            var rest := Run(o.state, ops[1..]);
            !o.reply.Faulty() && !rest.Crashed() && Run(s, ops) == Trace([o.reply] + rest.replies, rest.state)
  {
  }

  // One more operation at the end of a run.
  lemma {:induction false} RunSnoc<V>(s: State<V>, ops: seq<Op<V>>, op: Op<V>)
    requires !Run(s, ops).Crashed()
    ensures var t, o := Run(s, ops), Step(Run(s, ops).state, op);
            && |t.replies| == |ops|
            && Run(s, ops + [op]) == Trace(t.replies + [o.reply], o.state)
    decreases |ops|
  {
    if ops == [] {
      assert ([] + [op])[1..] == [];
    } else {
      RunTail(s, ops);
      RunSnoc(Step(s, ops[0]).state, ops[1..], op);
      assert (ops + [op])[1..] == ops[1..] + [op];
    }
  }
}
