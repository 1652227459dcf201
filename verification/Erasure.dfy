// No operation looks at what a row stores. So two states that agree but for the stored data go on
// agreeing, whatever is stored: the bytes of the buffers, or the buffers themselves.

module Erasure {
  import opened Basics
  import opened EvictionPolicy
  import opened CacheModel
  import opened CacheRuns

  function EraseEntry<V>(e: Entry<V>): Entry<()> {
    Entry((), e.size)
  }

  function EraseTable<V>(t: Table<V>): Table<()> {
    map k | k in t :: EraseEntry(t[k])
  }

  function EraseState<V>(s: State<V>): State<()> {
    State(s.maxmem, s.cur, EraseTable(s.table), s.evictor)
  }

  function EraseReply<V>(r: Reply<V>): Reply<()> {
    match r
    case Stored => Stored
    case TooLarge => TooLarge
    case NoRoom => NoRoom
    case Hit(_, size) => Hit((), size)
    case Miss => Miss
    case Deleted(found) => Deleted(found)
    case Cleared => Cleared
    case Used(bytes) => Used(bytes)
    case AssertFails(check) => AssertFails(check)
    case SignedOverflow => SignedOverflow
  }

  function Erase<V>(o: Outcome<V>): Outcome<()> {
    Outcome(EraseReply(o.reply), EraseState(o.state))
  }

  function EraseOp<V>(op: Op<V>): Op<()> {
    match op
    case SetOp(k, e) => SetOp(k, EraseEntry(e))
    case GetOp(k) => GetOp(k)
    case DelOp(k) => DelOp(k)
    case ResetOp => ResetOp
    case SpaceOp => SpaceOp
  }

  lemma EraseFreed<V>(s: State<V>, k: Key)
    requires k in s.table && s.table[k].size <= s.cur
    ensures EraseState(Freed(s, k)) == Freed(EraseState(s), k)
  {
    assert EraseTable(s.table - {k}) == EraseTable(s.table) - {k};
  }

  lemma ReplaceErased<V>(s: State<V>, key: Key, e: Entry<V>)
    ensures Erase(Replace(s, key, e)) == Replace(EraseState(s), key, EraseEntry(e))
  {
    if key !in s.table {
      InsertErased(s, key, e);
    } else if s.table[key].size <= s.cur {
      EraseFreed(s, key);
      InsertErased(Freed(s, key), key, e);
    }
  }

  lemma InsertErased<V>(s: State<V>, key: Key, e: Entry<V>)
    requires key !in s.table
    ensures Erase(Insert(s, key, e)) == Insert(EraseState(s), key, EraseEntry(e))
  {
    assert EraseTable(s.table[key := e]) == EraseTable(s.table)[key := EraseEntry(e)];
  }

  lemma {:induction false} MakeRoomErased<V>(s: State<V>, key: Key, e: Entry<V>, change: int)
    ensures Erase(MakeRoom(s, key, e, change)) == MakeRoom(EraseState(s), key, EraseEntry(e), change)
    decreases QueueLength(s)
  {
    var sum := AsInt(s.cur) + change;
    if FitsInt(sum) {
      if sum <= AsInt(s.maxmem) || s.evictor.NoEvictor? {
        ReplaceErased(s, key, e);
      } else {
        var k, p := Front(s.evictor.queue), WithPop(s);
        if k != NO_KEY && k !in s.table {
          MakeRoomErased(p, key, e, change);
        } else if k != NO_KEY && s.table[k].size <= s.cur {
          EraseFreed(p, k);
          MakeRoomErased(Freed(p, k), key, e, if k == key then AsInt(e.size) else change);
        }
      }
    }
  }

  lemma {:induction false} MemErased<V>(t: Table<V>)
    ensures Mem(EraseTable(t)) == Mem(t)
    decreases |t|
  {
    if k :| k in t {
      MemSplit(t, k);
      MemSplit(EraseTable(t), k);
      assert EraseTable(t) - {k} == EraseTable(t - {k});
      MemErased(t - {k});
    } else {
      assert EraseTable(t) == map[];
    }
  }

  // One operation with the data erased is the operation on the state with the data erased.
  lemma StepErased<V>(s: State<V>, op: Op<V>)
    ensures Erase(Step(s, op)) == Step(EraseState(s), EraseOp(op))
  {
    match op {
      case SetOp(k, e) => MakeRoomErased(s, k, e, SizeChange(s, k, e.size));
      case GetOp(_) =>
      case DelOp(k) =>
        if k in s.table && s.table[k].size <= s.cur {
          EraseFreed(s, k);
        }
      case ResetOp =>
        MemErased(s.table);
        assert EraseTable<V>(map[]) == map[];
      case SpaceOp =>
    }
  }

  // So an operation on one state tells the outcome on another that agrees with it but for the data,
  // if the rows of the latter are those it had, or the one just stored.
  lemma SameStep<V, W>(s: State<V>, op: Op<V>, a: State<W>, b: State<W>, other: Op<W>)
    requires EraseState(a) == EraseState(s) && EraseOp(other) == EraseOp(op)
    requires EraseState(b) == EraseState(Step(s, op).state) && !Step(s, op).reply.Faulty()
    requires SubMap(b.table, if op.SetOp? && Step(s, op).reply.Stored? then a.table[op.key := other.entry] else a.table)
    ensures b == Step(a, other).state
    ensures EraseReply(Step(a, other).reply) == EraseReply(Step(s, op).reply)
  {
    StepErased(s, op);
    StepErased(a, other);
    StepWithinMap(a, other, a.table);
    SameRows(b, Step(a, other).state, if op.SetOp? && Step(s, op).reply.Stored? then a.table[op.key := other.entry] else a.table);
  }

  lemma SameRows<V>(a: State<V>, b: State<V>, m: Table<V>)
    requires EraseState(a) == EraseState(b) && SubMap(a.table, m) && SubMap(b.table, m)
    ensures a == b
  {
    assert a.table.Keys == EraseTable(a.table).Keys == EraseTable(b.table).Keys == b.table.Keys;
  }
}
