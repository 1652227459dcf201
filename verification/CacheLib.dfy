// The cache itself: a table of owned byte buffers, a running byte count, and a pointer to an
// evictor. Each method does to the heap what the function of the same name does to the state.

module CacheLib {
  import opened Basics
  import opened CacheModel
  import opened EvictionPolicy
  import opened Evictors
  import opened SetIsExact
  import opened CacheRuns
  import opened Erasure

  type Buffer = array<char>

  datatype Slot = Slot(buf: Buffer, size: u32)

  ghost function Buffers(t: map<Key, Slot>): set<Buffer> {
    set k | k in t :: t[k].buf
  }

  // Every copy ever made, and what became of it: freed, or made for a refused value and never
  // freed. All others are owned by the table.
  datatype Ledger = Ledger(made: set<Buffer>, freed: set<Buffer>, leaked: set<Buffer>)

  // The rows own distinct buffers of the sizes charged, and each copy made is owned, freed or
  // leaked, and only one of these.
  ghost predicate Owns(t: map<Key, Slot>, l: Ledger) {
    && (forall k :: k in t ==> t[k].buf.Length == t[k].size)
    && (forall j, k :: j in t && k in t && j != k ==> t[j].buf != t[k].buf)
    && l.made == Buffers(t) + l.freed + l.leaked
    && Buffers(t) !! l.freed && Buffers(t) !! l.leaked && l.freed !! l.leaked
  }

  // Nothing made is forgotten, nothing freed or leaked comes back.
  ghost predicate Later(a: Ledger, b: Ledger) {
    a.made <= b.made && a.freed <= b.freed && a.leaked <= b.leaked
  }

  // The rows left in `u` are rows of `t`, with the buffers they had there.
  ghost predicate Keeps(t: map<Key, Slot>, u: map<Key, Slot>) {
    forall k :: k in u ==> k in t && u[k] == t[k]
  }

  // The same, but for one key.
  ghost predicate KeepsOthers(t: map<Key, Slot>, u: map<Key, Slot>, key: Key) {
    forall k :: k in u && k != key ==> k in t && u[k] == t[k]
  }

  lemma OwnsAfterFree(t: map<Key, Slot>, l: Ledger, k: Key)
    requires Owns(t, l) && k in t
    ensures t[k].buf !in l.freed
    ensures Owns(t - {k}, l.(freed := l.freed + {t[k].buf}))
    ensures Buffers(t - {k}) == Buffers(t) - {t[k].buf}
  {
    assert t[k].buf in Buffers(t);
    forall b | b in Buffers(t) - {t[k].buf} ensures b in Buffers(t - {k}) {
      var j :| j in t && t[j].buf == b;
      assert j in t - {k};
    }
  }

  lemma OwnsAfterInsert(t: map<Key, Slot>, l: Ledger, k: Key, slot: Slot)
    requires Owns(t, l) && k !in t && slot.buf !in l.made && slot.buf.Length == slot.size
    ensures Owns(t[k := slot], l.(made := l.made + {slot.buf}))
    ensures Buffers(t[k := slot]) == Buffers(t) + {slot.buf}
  {
    var u := t[k := slot];
    forall b | b in Buffers(t) + {slot.buf} ensures b in Buffers(u) {
      if b != slot.buf {
        var j :| j in t && t[j].buf == b;
        assert u[j].buf == b;
      } else {
        assert u[k].buf == b;
      }
    }
  }

  // The rows with the bytes in their buffers.
  ghost function ContentsOf(t: map<Key, Slot>): Table<seq<char>>
    reads Buffers(t)
  {
    map k | k in t :: Entry(t[k].buf[..], t[k].size)
  }

  // The rows with the buffers themselves.
  function IdentitiesOf(t: map<Key, Slot>): Table<Buffer> {
    map k | k in t :: Entry(t[k].buf, t[k].size)
  }

  lemma SameButForData(t: map<Key, Slot>)
    ensures EraseTable(ContentsOf(t)) == EraseTable(IdentitiesOf(t))
  {
  }

  lemma SameBytes(t: map<Key, Slot>)
    ensures Mem(IdentitiesOf(t)) == Mem(ContentsOf(t))
  {
    SameButForData(t);
    MemErased(ContentsOf(t));
    MemErased(IdentitiesOf(t));
  }

  // What `set` does to the bytes it does to the buffers, if the other rows keep theirs.
  lemma SetOnIdentities(s: State<seq<char>>, s': State<seq<char>>, a: State<Buffer>, b: State<Buffer>,
                        t: map<Key, Slot>, u: map<Key, Slot>, key: Key, e: Entry<seq<char>>, made: Buffer)
    requires EraseState(a) == EraseState(s) && EraseState(b) == EraseState(s')
    requires a.table == IdentitiesOf(t) && b.table == IdentitiesOf(u) && KeepsOthers(t, u, key)
    requires s' == Set(s, key, e).state && !Set(s, key, e).reply.Faulty()
    requires if Set(s, key, e).reply == Stored then key in u && u[key] == Slot(made, e.size) else u == t
    ensures b == Set(a, key, Entry(made, e.size)).state
    ensures EraseReply(Set(a, key, Entry(made, e.size)).reply) == EraseReply(Set(s, key, e).reply)
  {
    SameStep(s, SetOp(key, e), a, b, SetOp(key, Entry(made, e.size)));
  }

  lemma ContentsAfterFree(t: map<Key, Slot>, k: Key)
    ensures ContentsOf(t - {k}) == ContentsOf(t) - {k}
  {
  }

  lemma ContentsAfterInsert(t: map<Key, Slot>, k: Key, slot: Slot)
    ensures ContentsOf(t[k := slot]) == ContentsOf(t)[k := Entry(slot.buf[..], slot.size)]
  {
  }

  class Cache {
    const maxmem: u32
    const evictor: EvictorRef
    var currentMem: u32
    var table: map<Key, Slot>
    ghost var ledger: Ledger

    ghost predicate Valid()
      reads this, evictor.Footprint()
      reads if evictor.Lru? then {evictor.lru} else {}
    {
      && Owns(table, ledger)
      && evictor.Valid()
      && this !in evictor.Footprint()
      && (forall b :: b in ledger.made ==> b !in evictor.Footprint())
    }

    ghost function Contents(): Table<seq<char>>
      reads this, Buffers(table)
    {
      ContentsOf(table)
    }

    ghost function Model(): State<seq<char>>
      reads this, Buffers(table), evictor.Footprint()
      reads if evictor.Lru? then {evictor.lru} else {}
    {
      State(maxmem, currentMem, Contents(), evictor.Model())
    }

    // The state with buffers for data.
    ghost function Identities(): State<Buffer>
      reads this, evictor.Footprint()
      reads if evictor.Lru? then {evictor.lru} else {}
    {
      State(maxmem, currentMem, IdentitiesOf(table), evictor.Model())
    }

    ghost predicate OutcomeOn(o: Outcome<Buffer>, reply: Reply<seq<char>>)
      reads this, evictor.Footprint()
      reads if evictor.Lru? then {evictor.lru} else {}
    {
      o.state == Identities() && EraseReply(o.reply) == EraseReply(reply)
    }

    constructor (maxmem: u32, evictor: EvictorRef)
      requires evictor.Valid()
      ensures Valid() && this.maxmem == maxmem && this.evictor == evictor
      ensures Model() == Init(maxmem, evictor.Model()) && ledger == Ledger({}, {}, {})
    {
      this.maxmem, this.evictor := maxmem, evictor;
      currentMem, table := 0, map[];
      ledger := Ledger({}, {}, {});
    }

    // Frees the buffer of a row and erases the row; answers false where the assertion fails.
    method Free(key: Key) returns (ok: bool)
      requires Valid() && key in table
      modifies this
      ensures Valid()
      ensures ok <==> old(table[key].size <= currentMem)
      ensures ok ==> Model() == Freed(old(Model()), key)
      ensures ok ==> table == old(table) - {key} && old(table[key].buf) !in old(ledger.freed)
      ensures ok ==> ledger == old(ledger).(freed := old(ledger.freed) + {old(table[key].buf)})
      ensures !ok ==> Model() == old(Model()) && ledger == old(ledger) && table == old(table)
    {
      if currentMem < table[key].size {
        return false;
      }
      OwnsAfterFree(table, ledger, key);
      ContentsAfterFree(table, key);
      currentMem := currentMem - table[key].size;
      ledger := ledger.(freed := ledger.freed + {table[key].buf});
      table := table - {key};
      return true;
    }

    // Calls `touch_key` on the evictor, if there is one.
    method TouchEvictor(key: Key)
      requires Valid()
      modifies evictor.Footprint()
      ensures Valid() && fresh(evictor.Footprint() - old(evictor.Footprint()))
      ensures Model() == WithTouch(old(Model()), key)
    {
      if !evictor.Null? {
        evictor.TouchKey(key);
      }
    }

    // Calls `evict` on the evictor.
    method PopEvictor() returns (key: Key)
      requires Valid() && !evictor.Null?
      modifies evictor.Footprint()
      ensures Valid() && evictor.Footprint() <= old(evictor.Footprint())
      ensures key == Front(old(Model()).evictor.queue) && Model() == WithPop(old(Model()))
    {
      key := evictor.Evict();
    }

    // A deep copy of the first `size` bytes.
    method Copy(val: Buffer, size: u32) returns (copied: Buffer)
      requires Valid() && size <= val.Length
      ensures fresh(copied) && copied.Length == size && copied[..] == val[..size]
      ensures Valid() && copied !in ledger.made && copied !in evictor.Footprint() && Model() == old(Model())
    {
      copied := new char[size];
      for i := 0 to size
        invariant copied[..i] == val[..i]
      {
        copied[i] := val[i];
      }
    }

    // Stores a copy of the first `size` bytes of `val` under `key`.
    method Set(key: Key, val: Buffer, size: u32) returns (reply: Reply<seq<char>>, ghost made: Buffer)
      requires Valid() && size <= val.Length
      modifies this, evictor.Footprint()
      ensures Valid() && fresh(evictor.Footprint() - old(evictor.Footprint()))
      ensures KeepsOthers(old(table), table, key)
      ensures Outcome(reply, Model()) == CacheModel.Set(old(Model()), key, Entry(old(val[..size]), size))
      ensures fresh(made) && Later(old(ledger), ledger) && ledger.made == old(ledger.made) + {made}
      ensures reply == Stored ==> key in table && table[key].buf == made && ledger.leaked == old(ledger.leaked)
      ensures reply == TooLarge || reply == NoRoom ==>
                && table == old(table) && ledger.freed == old(ledger.freed)
                && ledger.leaked == old(ledger.leaked) + {made}
      ensures !reply.Faulty() ==> OutcomeOn(CacheModel.Set(old(Identities()), key, Entry(made, size)), reply)
    {
      var copied := Copy(val, size);
      assert copied[..] == old(val[..size]);
      made := copied;
      reply := StoreCopy(key, copied, size);
    }

    // `Store`, seen on the buffers as well as on the bytes.
    method StoreCopy(key: Key, copied: Buffer, size: u32) returns (reply: Reply<seq<char>>)
      requires Valid() && copied !in ledger.made && copied !in evictor.Footprint() && copied.Length == size
      modifies this, evictor.Footprint()
      ensures Valid() && fresh(evictor.Footprint() - old(evictor.Footprint()))
      ensures KeepsOthers(old(table), table, key)
      ensures Outcome(reply, Model()) == CacheModel.Set(old(Model()), key, Entry(copied[..], size))
      ensures !reply.Faulty() ==> OutcomeOn(CacheModel.Set(old(Identities()), key, Entry(copied, size)), reply)
      ensures Later(old(ledger), ledger) && ledger.made == old(ledger.made) + {copied}
      ensures reply == Stored ==> key in table && table[key].buf == copied && ledger.leaked == old(ledger.leaked)
      ensures reply == TooLarge || reply == NoRoom ==>
                && table == old(table) && ledger.freed == old(ledger.freed)
                && ledger.leaked == old(ledger.leaked) + {copied}
    {
      ghost var s, a, t := Model(), Identities(), table;
      SameButForData(table);
      reply := Store(key, copied, size);
      if !reply.Faulty() {
        SetReplies(s, key, Entry(copied[..], size));
        SameButForData(table);
        SetOnIdentities(s, Model(), a, Identities(), t, table, key, Entry(copied[..], size), copied);
      }
    }

    method Store(key: Key, copied: Buffer, size: u32) returns (reply: Reply<seq<char>>)
      requires Valid() && copied !in ledger.made && copied !in evictor.Footprint() && copied.Length == size
      modifies this, evictor.Footprint()
      ensures Valid() && fresh(evictor.Footprint() - old(evictor.Footprint()))
      ensures KeepsOthers(old(table), table, key)
      ensures Outcome(reply, Model()) == CacheModel.Set(old(Model()), key, Entry(copied[..], size))
      ensures Later(old(ledger), ledger) && ledger.made == old(ledger.made) + {copied}
      ensures reply == Stored ==> key in table && table[key].buf == copied && ledger.leaked == old(ledger.leaked)
      ensures reply == TooLarge || reply == NoRoom ==>
                && table == old(table) && ledger.freed == old(ledger.freed)
                && ledger.leaked == old(ledger.leaked) + {copied}
    {
      ghost var e := Entry(copied[..], size);
      var refusal, sizeChange := Guard(key, size, e);
      if refusal.Some? {
        Leak(copied);
        return refusal.value;
      }
      reply := EvictAndInsert(key, copied, size, sizeChange);
    }

    // The eviction loop and what follows it.
    method EvictAndInsert(key: Key, copied: Buffer, size: u32, change: int) returns (reply: Reply<seq<char>>)
      requires Valid() && copied !in ledger.made && copied !in evictor.Footprint() && copied.Length == size
      requires evictor.Null? && FitsInt(AsInt(currentMem) + change) ==> AsInt(currentMem) + change <= AsInt(maxmem)
      modifies this, evictor.Footprint()
      ensures Valid() && fresh(evictor.Footprint() - old(evictor.Footprint()))
      ensures KeepsOthers(old(table), table, key)
      ensures Outcome(reply, Model()) == CacheModel.MakeRoom(old(Model()), key, Entry(copied[..], size), change)
      ensures Later(old(ledger), ledger) && ledger.made == old(ledger.made) + {copied}
      ensures reply == Stored ==> key in table && table[key].buf == copied && ledger.leaked == old(ledger.leaked)
      ensures reply == Stored || reply.Faulty()
    {
      var fault := MakeRoom(key, size, change, Entry(copied[..], size));
      if fault.Some? {
        Leak(copied);
        return fault.value;
      }
      reply := Insert(key, copied, size);
    }

    // Everything before the eviction loop: the change in size, and the reply if the value is refused.
    method Guard(key: Key, size: u32, ghost e: Entry<seq<char>>)
      returns (refusal: Option<Reply<seq<char>>>, sizeChange: int)
      requires Valid() && e.size == size
      ensures refusal.Some? ==> CacheModel.Set(Model(), key, e) == Outcome(refusal.value, Model())
      ensures refusal.None? ==> CacheModel.Set(Model(), key, e) == CacheModel.MakeRoom(Model(), key, e, sizeChange)
      ensures refusal.None? && evictor.Null? && FitsInt(AsInt(currentMem) + sizeChange) ==>
                AsInt(currentMem) + sizeChange <= AsInt(maxmem)
      ensures refusal != Some(Stored)
    {
      if key in table {
        sizeChange := AsInt(size) - AsInt(table[key].size);
      } else {
        sizeChange := AsInt(size);
      }
      if !FitsInt(sizeChange) {
        return Some(SignedOverflow), sizeChange;
      }
      if currentMem > maxmem {
        return Some(AssertFails(OnEntry)), sizeChange;
      }
      if sizeChange > AsInt(maxmem) {
        return Some(TooLarge), sizeChange;
      }
      if evictor.Null? && FitsInt(AsInt(currentMem) + sizeChange) && AsInt(currentMem) + sizeChange > AsInt(maxmem) {
        return Some(NoRoom), sizeChange;
      }
      return None, sizeChange;
    }

    // A copy that is neither stored nor freed.
    ghost method Leak(b: Buffer)
      requires Valid() && b !in ledger.made && b !in evictor.Footprint()
      modifies `ledger
      ensures Valid() && Model() == old(Model())
      ensures ledger == old(ledger).(made := old(ledger.made) + {b}, leaked := old(ledger.leaked) + {b})
    {
      ledger := ledger.(made := ledger.made + {b}, leaked := ledger.leaked + {b});
    }

    // The eviction loop. It comes to rest with room for the value, or stops at a fault.
    method MakeRoom(key: Key, size: u32, change: int, ghost e: Entry<seq<char>>) returns (fault: Option<Reply<seq<char>>>)
      requires Valid() && e.size == size
      requires evictor.Null? && FitsInt(AsInt(currentMem) + change) ==> AsInt(currentMem) + change <= AsInt(maxmem)
      modifies this, evictor.Footprint()
      ensures Valid() && evictor.Footprint() <= old(evictor.Footprint())
      ensures Keeps(old(table), table)
      ensures Later(old(ledger), ledger) && ledger.made == old(ledger.made) && ledger.leaked == old(ledger.leaked)
      ensures fault.None? ==> CacheModel.MakeRoom(old(Model()), key, e, change) == Replace(Model(), key, e)
      ensures fault.Some? ==>
                && CacheModel.MakeRoom(old(Model()), key, e, change) == Outcome(fault.value, Model())
                && fault.value.Faulty()
    {
      var sizeChange := change;
      while FitsInt(AsInt(currentMem) + sizeChange) && AsInt(currentMem) + sizeChange > AsInt(maxmem)
        invariant Valid() && evictor.Footprint() <= old(evictor.Footprint())
        invariant Keeps(old(table), table)
        invariant Later(old(ledger), ledger) && ledger.made == old(ledger.made) && ledger.leaked == old(ledger.leaked)
        invariant evictor.Null? && FitsInt(AsInt(currentMem) + sizeChange) ==> AsInt(currentMem) + sizeChange <= AsInt(maxmem)
        invariant CacheModel.MakeRoom(Model(), key, e, sizeChange) == CacheModel.MakeRoom(old(Model()), key, e, change)
        decreases if evictor.Null? then 0 else |Model().evictor.queue|
      {
        fault, sizeChange := EvictOne(key, size, sizeChange, e);
        if fault.Some? {
          return;
        }
      }
      if !FitsInt(AsInt(currentMem) + sizeChange) {
        return Some(SignedOverflow);
      }
      return None;
    }

    // One turn of the eviction loop.
    method EvictOne(key: Key, size: u32, change: int, ghost e: Entry<seq<char>>)
      returns (fault: Option<Reply<seq<char>>>, sizeChange: int)
      requires Valid() && e.size == size && !evictor.Null?
      requires FitsInt(AsInt(currentMem) + change) && AsInt(currentMem) + change > AsInt(maxmem)
      modifies this, evictor.Footprint()
      ensures Valid() && evictor.Footprint() <= old(evictor.Footprint())
      ensures Keeps(old(table), table)
      ensures Later(old(ledger), ledger) && ledger.made == old(ledger.made) && ledger.leaked == old(ledger.leaked)
      ensures fault.None? ==>
                && CacheModel.MakeRoom(old(Model()), key, e, change) == CacheModel.MakeRoom(Model(), key, e, sizeChange)
                && |Model().evictor.queue| < |old(Model()).evictor.queue|
      ensures fault.Some? ==>
                && CacheModel.MakeRoom(old(Model()), key, e, change) == Outcome(fault.value, Model())
                && fault.value.Faulty()
    {
      var evictionKey := PopEvictor();
      fault, sizeChange := FreeEvicted(evictionKey, key, size, change, e);
    }

    // What the loop does with the key it was answered.
    method FreeEvicted(evictionKey: Key, key: Key, size: u32, change: int, ghost e: Entry<seq<char>>)
      returns (fault: Option<Reply<seq<char>>>, sizeChange: int)
      requires Valid() && e.size == size
      modifies this
      ensures Valid() && Later(old(ledger), ledger) && ledger.made == old(ledger.made) && ledger.leaked == old(ledger.leaked)
      ensures Keeps(old(table), table)
      ensures Model().evictor == old(Model()).evictor && (evictionKey == NO_KEY ==> fault.Some?)
      ensures fault.None? ==>
                AfterAnswer(old(Model()), evictionKey, key, e, change) == CacheModel.MakeRoom(Model(), key, e, sizeChange)
      ensures fault.Some? ==>
                && AfterAnswer(old(Model()), evictionKey, key, e, change) == Outcome(fault.value, Model())
                && fault.value.Faulty()
    {
      sizeChange := change;
      if evictionKey == NO_KEY {
        return Some(AssertFails(OnEviction)), sizeChange;
      }
      if evictionKey !in table {
        return None, sizeChange;
      }
      if evictionKey == key {
        sizeChange := AsInt(size);
      }
      var ok := Free(evictionKey);
      if !ok {
        return Some(AssertFails(InFree)), sizeChange;
      }
      return None, sizeChange;
    }

    // Frees the row of the key if there is one, inserts the new row and touches the key.
    method Insert(key: Key, copied: Buffer, size: u32) returns (reply: Reply<seq<char>>)
      requires Valid() && copied !in ledger.made && copied !in evictor.Footprint() && copied.Length == size
      modifies this, evictor.Footprint()
      ensures Valid() && fresh(evictor.Footprint() - old(evictor.Footprint()))
      ensures KeepsOthers(old(table), table, key)
      ensures Outcome(reply, Model()) == Replace(old(Model()), key, Entry(copied[..], size))
      ensures Later(old(ledger), ledger) && ledger.made == old(ledger.made) + {copied}
      ensures reply == Stored ==> key in table && table[key].buf == copied && ledger.leaked == old(ledger.leaked)
      ensures reply == Stored || reply.Faulty()
    {
      var ok := FreeOld(key, Entry(copied[..], size));
      if !ok {
        Leak(copied);
        return AssertFails(InFree);
      }
      reply := AddAndTouch(key, copied, size);
    }

    // Frees the row of the key if there is one; answers false where the assertion fails.
    method FreeOld(key: Key, ghost e: Entry<seq<char>>) returns (ok: bool)
      requires Valid()
      modifies this
      ensures Valid() && Keeps(old(table), table)
      ensures Later(old(ledger), ledger) && ledger.made == old(ledger.made) && ledger.leaked == old(ledger.leaked)
      ensures ok ==> key !in table && Replace(old(Model()), key, e) == CacheModel.Insert(Model(), key, e)
      ensures !ok ==> Replace(old(Model()), key, e) == Outcome(AssertFails(InFree), Model())
    {
      ok := true;
      if key in table {
        ok := Free(key);
      }
    }

    method AddAndTouch(key: Key, copied: Buffer, size: u32) returns (reply: Reply<seq<char>>)
      requires Valid() && copied !in ledger.made && copied !in evictor.Footprint()
      requires key !in table && copied.Length == size
      modifies this, evictor.Footprint()
      ensures Valid() && fresh(evictor.Footprint() - old(evictor.Footprint()))
      ensures KeepsOthers(old(table), table, key)
      ensures Outcome(reply, Model()) == CacheModel.Insert(old(Model()), key, Entry(copied[..], size))
      ensures ledger == old(ledger).(made := old(ledger.made) + {copied})
      ensures key in table && table[key].buf == copied
      ensures reply == Stored || reply.Faulty()
    {
      AddRow(key, copied, size);
      if currentMem > maxmem {
        return AssertFails(OnExit);
      }
      TouchEvictor(key);
      return Stored;
    }

    method AddRow(key: Key, copied: Buffer, size: u32)
      requires Valid() && copied !in ledger.made && copied !in evictor.Footprint()
      requires key !in table && copied.Length == size
      modifies this
      ensures Valid() && Model() == WithRow(old(Model()), key, Entry(copied[..], size))
      ensures KeepsOthers(old(table), table, key)
      ensures key in table && table[key].buf == copied
      ensures ledger == old(ledger).(made := old(ledger.made) + {copied})
    {
      OwnsAfterInsert(table, ledger, key, Slot(copied, size));
      ContentsAfterInsert(table, key, Slot(copied, size));
      ledger := ledger.(made := ledger.made + {copied});
      table := table[key := Slot(copied, size)];
      currentMem := (currentMem + size) % TWO_32;
    }

    // The buffer under a key and its size, or null and 0. A hit touches the key.
    method Get(key: Key) returns (val: array?<char>, size: u32)
      requires Valid()
      modifies evictor.Footprint()
      ensures Valid() && fresh(evictor.Footprint() - old(evictor.Footprint()))
      ensures Model() == CacheModel.Get(old(Model()), key).state
      ensures CacheModel.Get(old(Identities()), key) == Outcome(if val == null then Miss else Hit(val, size), Identities())
      ensures if val == null then size == 0 && CacheModel.Get(old(Model()), key).reply == Miss
              else key in table && val == table[key].buf && CacheModel.Get(old(Model()), key).reply == Hit(val[..], size)
    {
      if key !in table {
        return null, 0;
      }
      size := table[key].size;
      TouchEvictor(key);
      return table[key].buf, size;
    }

    method Del(key: Key) returns (reply: Reply<seq<char>>)
      requires Valid()
      modifies this
      ensures Valid() && Later(old(ledger), ledger) && ledger.made == old(ledger.made) && ledger.leaked == old(ledger.leaked)
      ensures Keeps(old(table), table)
      ensures Outcome(reply, Model()) == CacheModel.Del(old(Model()), key)
      ensures OutcomeOn(CacheModel.Del(old(Identities()), key), reply)
      ensures !reply.Faulty() ==> reply == Deleted(key in old(table)) && table == old(table) - {key}
      ensures old(Conserved(Model())) ==> !reply.Faulty() && Conserved(Model())
    {
      MemDrop(Contents(), key);
      assert IdentitiesOf(table - {key}) == IdentitiesOf(table) - {key};
      if key !in table {
        return Deleted(false);
      }
      var ok := Free(key);
      if !ok {
        return AssertFails(InFree);
      }
      return Deleted(true);
    }

    method SpaceUsed() returns (bytes: u32)
      requires Valid()
      ensures bytes == Model().cur
    {
      return currentMem;
    }

    // Frees every row, in any order, and drains the evictor.
    method Reset() returns (reply: Reply<seq<char>>)
      requires Valid()
      modifies this, evictor.Footprint()
      ensures Valid() && evictor.Footprint() <= old(evictor.Footprint())
      ensures reply == CacheModel.Reset(old(Model())).reply
      ensures reply == Cleared ==>
                && Model() == CacheModel.Reset(old(Model())).state
                && ledger == old(ledger).(freed := old(ledger.freed + Buffers(table)))
      ensures reply == Cleared ==> OutcomeOn(CacheModel.Reset(old(Identities())), reply) && table == map[] && currentMem == 0
      ensures old(Conserved(Model())) ==> reply == Cleared
    {
      SameBytes(table);
      var ok := Clear();
      if !ok {
        return AssertFails(InFree);
      }
      Drain();
      return Cleared;
    }

    // Frees every row and sets the byte count to 0.
    method Clear() returns (ok: bool)
      requires Valid()
      modifies this
      ensures Valid() && (ok <==> old(currentMem >= Mem(Contents())))
      ensures ok ==> table == map[] && currentMem == 0
      ensures ok ==> Model() == Init(maxmem, old(Model()).evictor) && Identities() == Init(maxmem, old(Model()).evictor)
      ensures ok ==> ledger == old(ledger).(freed := old(ledger.freed + Buffers(table)))
    {
      ok := FreeAll();
      if ok {
        table := map[];
        currentMem := 0;
        assert Contents() == map[] && IdentitiesOf(table) == map[];
      }
    }

    // Between any two frees the byte count stays the same amount above the bytes in the table.
    method FreeAll() returns (ok: bool)
      requires Valid()
      modifies this
      ensures Valid() && Model().evictor == old(Model()).evictor
      ensures ok <==> old(currentMem >= Mem(Contents()))
      ensures ok ==> table == map[] && ledger == old(ledger).(freed := old(ledger.freed + Buffers(table)))
    {
      while table != map[]
        invariant Valid() && Model().evictor == old(Model()).evictor
        invariant currentMem - Mem(Contents()) == old(currentMem - Mem(Contents()))
        invariant Later(old(ledger), ledger) && ledger.made == old(ledger.made) && ledger.leaked == old(ledger.leaked)
        decreases |table|
      {
        var key :| key in table;
        MemSplit(Contents(), key);
        ok := Free(key);
        if !ok {
          return;
        }
      }
      assert Contents() == map[];
      return true;
    }

    method Drain()
      requires Valid()
      modifies evictor.Footprint()
      ensures Valid() && evictor.Footprint() <= old(evictor.Footprint())
      ensures Model() == old(Model()).(evictor := Drainage(old(Model()).evictor))
    {
      var evicted := "1";
      while evicted != NO_KEY && !evictor.Null?
        invariant Valid() && evictor.Footprint() <= old(evictor.Footprint())
        invariant Model() == old(Model()).(evictor := Model().evictor)
        invariant if evicted == NO_KEY then Model().evictor == Drainage(old(Model()).evictor)
                  else Drainage(Model().evictor) == Drainage(old(Model()).evictor)
        decreases if evictor.Null? then 0 else |Model().evictor.queue|, if evicted == NO_KEY then 0 else 1
      {
        evicted := PopEvictor();
      }
    }
  }
}
