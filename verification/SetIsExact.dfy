// `set` over the mathematical integers, said without a loop, and when the program's `set` is it.

module SetIsExact {
  import opened Basics
  import opened EvictionPolicy
  import opened CacheModel

  // The byte count is the bytes in the table, and within the capacity.
  ghost predicate Conserved<V>(s: State<V>) {
    s.cur == Mem(s.table) <= s.maxmem
  }

  // How many entries of a queue must go for the rows of a table to fit: the shortest prefix that
  // is enough, or all up to the end or the first "".
  ghost function Pops<V>(rows: Table<V>, q: seq<Key>, room: int): (n: nat)
    ensures n <= |q|
  {
    if Mem(rows) <= room || q == [] || q[0] == NO_KEY then 0
    else 1 + Pops(rows - {q[0]}, q[1..], room)
  }

  ghost function IdealSet<V>(s: State<V>, key: Key, e: Entry<V>): Outcome<V>
    requires Conserved(s)
  {
    var others := s.table - {key};
    var oldSize := Mem(s.table) - Mem(others);
    if e.size - oldSize > s.maxmem then Outcome(TooLarge, s)
    else if s.evictor.Evictor? then IdealRoom(s, key, e)
    else if e.size + Mem(others) > s.maxmem then Outcome(NoRoom, s)
    else Outcome(Stored, State(s.maxmem, e.size + Mem(others), others[key := e], NoEvictor))
  }

  ghost function IdealRoom<V>(s: State<V>, key: Key, e: Entry<V>): Outcome<V>
    requires Conserved(s) && s.evictor.Evictor?
  {
    var others, q := s.table - {key}, s.evictor.queue;
    var n := Pops(others, q, s.maxmem - e.size);
    var popped := Keys(q[..n]);
    MemShrinks(s.table, popped);
    if e.size + Mem(others - popped) > s.maxmem then
      Outcome(AssertFails(OnEviction),
              State(s.maxmem, Mem(s.table - popped), s.table - popped, s.evictor.(queue := Popped(q[n..]))))
    else
      Outcome(Stored,
              State(s.maxmem, e.size + Mem(others - popped), (others - popped)[key := e],
                    s.evictor.(queue := Touched(s.evictor.policy, q[n..], key))))
  }

  // ----- the program's set is the ideal one -----

  lemma {:induction false} PopsIsShortest<V>(rows: Table<V>, q: seq<Key>, room: int)
    ensures var n := Pops(rows, q, room);
            && NO_KEY !in q[..n]
            && (Mem(rows - Keys(q[..n])) <= room || n == |q| || q[n] == NO_KEY)
            && forall m :: 0 <= m < n ==> Mem(rows - Keys(q[..m])) > room
  {
    var n := Pops(rows, q, room);
    assert rows - Keys(q[..0]) == rows;
    if n > 0 {
      var rows' := rows - {q[0]};
      PopsIsShortest(rows', q[1..], room);
      assert q[..n] == [q[0]] + q[1..][..n - 1];
      PrefixSplit(rows, q, n);
      forall m | 0 < m < n ensures Mem(rows - Keys(q[..m])) > room {
        PrefixSplit(rows, q, m);
      }
    }
  }

  lemma PrefixSplit<V>(rows: Table<V>, q: seq<Key>, n: nat)
    requires 0 < n <= |q|
    ensures Keys(q[..n]) == {q[0]} + Keys(q[1..][..n - 1])
    ensures rows - Keys(q[..n]) == rows - {q[0]} - Keys(q[1..][..n - 1])
    ensures q[n..] == q[1..][n - 1..]
  {
    assert q[..n] == [q[0]] + q[1..][..n - 1];
  }

  // The state after one turn of the loop: the front of the queue is gone, and its row with it.
  ghost function Turned<V>(s: State<V>): (t: State<V>)
    requires Conserved(s) && s.evictor.Evictor? && s.evictor.queue != []
    ensures Conserved(t)
  {
    var popped := {s.evictor.queue[0]};
    MemShrinks(s.table, popped);
    State(s.maxmem, Mem(s.table - popped), s.table - popped, s.evictor.Pop())
  }

  lemma TurnFreesFront<V>(s: State<V>)
    requires Conserved(s) && s.evictor.Evictor? && s.evictor.queue != []
    ensures var k := s.evictor.queue[0];
            if k in s.table then s.table[k].size <= s.cur && Turned(s) == Freed(WithPop(s), k)
            else Turned(s) == WithPop(s)
  {
    MemDrop(s.table, s.evictor.queue[0]);
  }

  lemma TurnPopsOne<V>(s: State<V>, key: Key, e: Entry<V>)
    requires Conserved(s) && s.evictor.Evictor? && s.evictor.queue != []
    requires s.evictor.queue[0] != NO_KEY && e.size + Mem(s.table - {key}) > s.maxmem
    ensures var t, room := Turned(s), s.maxmem - e.size;
            && t.table - {key} == s.table - {key} - {s.evictor.queue[0]}
            && Pops(s.table - {key}, s.evictor.queue, room) == 1 + Pops(t.table - {key}, t.evictor.queue, room)
  {
  }

  // One turn of the loop leaves the ideal outcome unchanged.
  lemma TurnKeepsIdeal<V>(s: State<V>, key: Key, e: Entry<V>)
    requires Conserved(s) && s.evictor.Evictor? && s.evictor.queue != []
    requires s.evictor.queue[0] != NO_KEY && e.size + Mem(s.table - {key}) > s.maxmem
    ensures IdealRoom(Turned(s), key, e) == IdealRoom(s, key, e)
  {
    var q, others, t := s.evictor.queue, s.table - {key}, Turned(s);
    var n := Pops(others, q, s.maxmem - e.size);
    TurnPopsOne(s, key, e);
    PrefixSplit(s.table, q, n);
    IdealRoomIs(s, key, e);
    IdealRoomIs(t, key, e);
    assert t.table - Keys(t.evictor.queue[..n - 1]) == s.table - Keys(q[..n]);
  }

  // The outcome once the pops are done: `rows` are left in the table, and a queue in the evictor.
  ghost function Settled<V>(maxmem: u32, rows: Table<V>, ev: EvictorModel, key: Key, e: Entry<V>): Outcome<V>
    requires Mem(rows) <= maxmem && ev.Evictor?
  {
    if e.size + Mem(rows - {key}) > maxmem then
      Outcome(AssertFails(OnEviction), State(maxmem, Mem(rows), rows, ev.Pop()))
    else
      Outcome(Stored, State(maxmem, e.size + Mem(rows - {key}), rows[key := e], ev.Touch(key)))
  }

  lemma IdealRoomIs<V>(s: State<V>, key: Key, e: Entry<V>)
    requires Conserved(s) && s.evictor.Evictor?
    ensures var q := s.evictor.queue;
            var n := Pops(s.table - {key}, q, s.maxmem - e.size);
            && Mem(s.table - Keys(q[..n])) <= s.maxmem
            && IdealRoom(s, key, e) == Settled(s.maxmem, s.table - Keys(q[..n]), s.evictor.(queue := q[n..]), key, e)
  {
    var q := s.evictor.queue;
    var popped := Keys(q[..Pops(s.table - {key}, q, s.maxmem - e.size)]);
    MemShrinks(s.table, popped);
    assert s.table - popped - {key} == s.table - {key} - popped;
    assert (s.table - popped)[key := e] == (s.table - {key} - popped)[key := e];
  }

  lemma {:induction false} MakeRoomIsIdeal<V>(s: State<V>, key: Key, e: Entry<V>, change: int)
    requires Conserved(s) && s.evictor.Evictor? && 2 * s.maxmem <= INT_MAX && e.size <= INT_MAX
    requires s.cur + change == e.size + Mem(s.table - {key}) <= INT_MAX
    ensures MakeRoom(s, key, e, change) == IdealRoom(s, key, e)
    decreases |s.evictor.queue|
  {
    var q := s.evictor.queue;
    if e.size + Mem(s.table - {key}) <= s.maxmem {
      RoomAlready(s, key, e);
    } else if q == [] || q[0] == NO_KEY {
      assert s.table - {key} - Keys(q[..0]) == s.table - {key};
      assert s.table - Keys(q[..0]) == s.table;
    } else {
      var k, t := q[0], Turned(s);
      TurnFreesFront(s);
      TurnKeepsIdeal(s, key, e);
      TurnKeepsSum(s, key, e.size, change);
      MakeRoomIsIdeal(t, key, e, if k == key && k in s.table then e.size else change);
    }
  }

  // Either `key` itself was evicted, and then nothing of it is left to be replaced, or the freed
  // row leaves both sides of the balance.
  lemma TurnKeepsSum<V>(s: State<V>, key: Key, size: u32, change: int)
    requires Conserved(s) && s.evictor.Evictor? && s.evictor.queue != []
    requires s.cur + change == size + Mem(s.table - {key})
    ensures var k, t := s.evictor.queue[0], Turned(s);
            t.cur + (if k == key && k in s.table then size else change)
              == size + Mem(t.table - {key}) <= size + Mem(s.table - {key})
  {
    var k, t := s.evictor.queue[0], Turned(s);
    MemDrop(s.table, k);
    MemDrop(s.table - {key}, k);
    assert t.table - {key} == s.table - {key} - {k};
    if k == key {
      assert t.table - {key} == t.table;
    }
  }

  lemma RoomAlready<V>(s: State<V>, key: Key, e: Entry<V>)
    requires Conserved(s) && s.evictor.Evictor? && e.size + Mem(s.table - {key}) <= s.maxmem
    ensures Replace(s, key, e) == IdealRoom(s, key, e)
  {
    var others, q := s.table - {key}, s.evictor.queue;
    MemDrop(s.table, key);
    assert others - Keys(q[..0]) == others;
    assert s.table[key := e] == others[key := e];
    assert q[0..] == q;
  }

  lemma PlainSetIsIdeal<V>(s: State<V>, key: Key, e: Entry<V>)
    requires Conserved(s) && 2 * s.maxmem <= INT_MAX && e.size <= INT_MAX
    requires s.evictor.NoEvictor? && SizeChange(s, key, e.size) <= s.maxmem
    ensures Set(s, key, e) == IdealSet(s, key, e)
  {
    MemDrop(s.table, key);
    assert s.table[key := e] == (s.table - {key})[key := e];
  }

  // Within the bounds the machine's `set` is the ideal one.
  lemma SetIsIdeal<V>(s: State<V>, key: Key, e: Entry<V>)
    requires Conserved(s) && 2 * s.maxmem <= INT_MAX && e.size <= INT_MAX
    ensures Set(s, key, e) == IdealSet(s, key, e)
  {
    MemDrop(s.table, key);
    if SizeChange(s, key, e.size) <= s.maxmem {
      if s.evictor.Evictor? {
        MakeRoomIsIdeal(s, key, e, SizeChange(s, key, e.size));
      } else {
        PlainSetIsIdeal(s, key, e);
      }
    }
  }

  // ----- the bounds are exact -----

  // A value of 2^31 bytes or more turns negative in the cast and is never refused.
  lemma HugeIsNotRefused<V>(s: State<V>, key: Key, e: Entry<V>)
    requires Conserved(s) && 2 * s.maxmem <= INT_MAX && e.size > INT_MAX
    ensures Set(s, key, e).reply != TooLarge
  {
    MemShrinks(s.table, {key});
    MemDrop(s.table, key);
  }

  lemma SetIsIdealIffSizeIsInt<V>(s: State<V>, key: Key, e: Entry<V>)
    requires Conserved(s) && 2 * s.maxmem <= INT_MAX
    ensures Set(s, key, e) == IdealSet(s, key, e) <==> e.size <= INT_MAX
  {
    if e.size <= INT_MAX {
      SetIsIdeal(s, key, e);
    } else {
      HugeIsNotRefused(s, key, e);
      MemShrinks(s.table, {key});
    }
  }

  ghost predicate IdealAt<V(!new)>(maxmem: u32) {
    forall s: State<V>, key, e: Entry<V> ::
      Conserved(s) && s.maxmem == maxmem && e.size <= INT_MAX ==> Set(s, key, e) == IdealSet(s, key, e)
  }

  // For the capacity, half the range of int is exactly what the arithmetic needs.
  lemma CapacityBoundIsExact<V(!new)>(maxmem: u32, v: V)
    ensures IdealAt<V>(maxmem) <==> 2 * maxmem <= INT_MAX
  {
    if 2 * maxmem <= INT_MAX {
      forall s: State<V>, key, e: Entry<V> | Conserved(s) && s.maxmem == maxmem && e.size <= INT_MAX
        ensures Set(s, key, e) == IdealSet(s, key, e)
      {
        SetIsIdeal(s, key, e);
      }
    } else if maxmem <= INT_MAX {
      SumOverflows(maxmem, v);
    } else {
      var s, e := Init<V>(maxmem, Evictor(Lru, [])), Entry(v, 0);
      assert s.table - {"k"} == map[];
      assert Set(s, "k", e).reply == TooLarge && IdealSet(s, "k", e).reply == Stored;
    }
  }

  // A full cache asked to store another value as large as its capacity.
  lemma SumOverflows<V>(maxmem: u32, v: V)
    requires maxmem <= INT_MAX < 2 * maxmem
    ensures var s := State(maxmem, maxmem, map["j" := Entry(v, maxmem)], Evictor(Lru, ["j"]));
            && Conserved(s)
            && Set(s, "k", Entry(v, maxmem)).reply == SignedOverflow
            && IdealSet(s, "k", Entry(v, maxmem)).reply == Stored
  {
    var t: Table<V>, q := map["j" := Entry(v, maxmem)], ["j"];
    MemSplit(t, "j");
    assert t - {"j"} == map[] && t - {"k"} == t;
    assert Pops(t, q, 0) == 1 && q[..1] == q && Keys(q) == {"j"};
  }

  // ----- when set runs into its assertion -----

  // The entries that evictions can reach: all before the first "".
  function Evictable(q: seq<Key>): seq<Key> {
    if q == [] || q[0] == NO_KEY then []
    else [q[0]] + Evictable(q[1..])
  }

  lemma {:induction false} PopsWithinEvictable<V>(rows: Table<V>, q: seq<Key>, room: int)
    ensures Mem(rows - Keys(q[..Pops(rows, q, room)])) <= room <==> Mem(rows - Keys(Evictable(q))) <= room
  {
    var n := Pops(rows, q, room);
    assert rows - Keys(q[..0]) == rows;
    if Mem(rows) <= room {
      MemShrinks(rows, Keys(Evictable(q)));
    } else if n > 0 {
      PopsWithinEvictable(rows - {q[0]}, q[1..], room);
      PrefixSplit(rows, q, n);
      assert Keys(Evictable(q)) == {q[0]} + Keys(Evictable(q[1..]));
      assert rows - Keys(Evictable(q)) == rows - {q[0]} - Keys(Evictable(q[1..]));
    } else {
      assert rows - Keys(Evictable(q)) == rows;
    }
  }

  // The guard tests the change in size, not the size. So `set` fails an assertion exactly when the
  // change passes the guard although evicting everything that can be evicted is not enough.
  lemma SetFaultsIff<V>(s: State<V>, key: Key, e: Entry<V>)
    requires Conserved(s) && 2 * s.maxmem <= INT_MAX && e.size <= INT_MAX
    ensures Set(s, key, e).reply.Faulty() <==>
              && s.evictor.Evictor?
              && SizeChange(s, key, e.size) <= s.maxmem
              && e.size + Mem(s.table - {key} - Keys(Evictable(s.evictor.queue))) > s.maxmem
    ensures Set(s, key, e).reply.Faulty() ==> Set(s, key, e).reply == AssertFails(OnEviction)
  {
    SetIsIdeal(s, key, e);
    MemDrop(s.table, key);
    if s.evictor.Evictor? {
      PopsWithinEvictable(s.table - {key}, s.evictor.queue, s.maxmem - e.size);
    }
  }

  // The state an accepted `set` leaves.
  lemma StoredState<V>(s: State<V>, key: Key, e: Entry<V>)
    requires Conserved(s) && s.evictor.Evictor? && 2 * s.maxmem <= INT_MAX && e.size <= INT_MAX
    requires Set(s, key, e).reply == Stored
    ensures var q, t := s.evictor.queue, Set(s, key, e).state;
            var n := Pops(s.table - {key}, q, s.maxmem - e.size);
            && t.table == (s.table - {key} - Keys(q[..n]))[key := e] == (s.table - Keys(q[..n]))[key := e]
            && t.cur == Mem(t.table) <= t.maxmem == s.maxmem
            && t.evictor == Evictor(s.evictor.policy, Touched(s.evictor.policy, q[n..], key))
            && e.size <= s.maxmem
  {
    var q, others := s.evictor.queue, s.table - {key};
    SetIsIdeal(s, key, e);
    var popped := Keys(q[..Pops(others, q, s.maxmem - e.size)]);
    MemUpdate(others - popped, key, e);
    assert others - popped - {key} == others - popped;
    assert (others - popped)[key := e] == (s.table - popped)[key := e];
  }

  // An accepted `set` pops the shortest prefix of the queue that makes enough room, whether or not
  // `key` itself or keys without a row stand in it. What is left is the old table without the
  // popped keys, with `key` mapped to the new value.
  lemma EvictionIsExact<V>(s: State<V>, key: Key, e: Entry<V>)
    requires Conserved(s) && s.evictor.Evictor? && 2 * s.maxmem <= INT_MAX && e.size <= INT_MAX
    requires Set(s, key, e).reply == Stored
    ensures var q, t := s.evictor.queue, Set(s, key, e).state;
            var n := Pops(s.table - {key}, q, s.maxmem - e.size);
            && t.table == (s.table - Keys(q[..n]))[key := e]
            && t.cur == Mem(t.table) <= t.maxmem == s.maxmem
            && t.evictor == Evictor(s.evictor.policy, Touched(s.evictor.policy, q[n..], key))
            && NO_KEY !in q[..n]
            && e.size + Mem(s.table - {key} - Keys(q[..n])) <= s.maxmem
            && forall m :: 0 <= m < n ==> e.size + Mem(s.table - {key} - Keys(q[..m])) > s.maxmem
  {
    StoredState(s, key, e);
    PopsIsShortest(s.table - {key}, s.evictor.queue, s.maxmem - e.size);
    PopsSuffice(s, key, e);
  }

  lemma PopsSuffice<V>(s: State<V>, key: Key, e: Entry<V>)
    requires Conserved(s) && s.evictor.Evictor? && 2 * s.maxmem <= INT_MAX && e.size <= INT_MAX
    requires Set(s, key, e).reply == Stored
    ensures var q := s.evictor.queue;
            var n := Pops(s.table - {key}, q, s.maxmem - e.size);
            e.size + Mem(s.table - {key} - Keys(q[..n])) <= s.maxmem
  {
    SetIsIdeal(s, key, e);
  }
}
