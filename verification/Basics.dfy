// Keys, machine integers and the byte count of a table: what every other module shares.

module Basics {

  type Key = string

  // The answer of an evictor that does not know what to evict.
  const NO_KEY: Key := ""

  // The 32-bit unsigned size type of the cache, and the bounds of the signed `int` it is cast to.
  const TWO_32 := 0x1_0000_0000
  const INT_MAX := 0x7FFF_FFFF
  const INT_MIN := -0x8000_0000

  type u32 = n: int | 0 <= n < TWO_32

  // The value of `int(n)` for an unsigned 32-bit n: two's complement.
  function AsInt(n: u32): int {
    if n <= INT_MAX then n else n - TWO_32
  }

  // Whether a mathematical integer is representable; signed arithmetic that leaves this range overflows.
  predicate FitsInt(n: int) {
    INT_MIN <= n <= INT_MAX
  }

  datatype Option<+T> = None | Some(value: T)

  // One row of the cache's table: what is stored, and the size in bytes charged for it.
  datatype Entry<+V> = Entry(data: V, size: u32)

  type Table<+V> = map<Key, Entry<V>>

  // The bytes charged for all the rows of a table.
  ghost function Mem<V>(t: Table<V>): nat
    decreases |t|
  {
    if t == map[] then 0
    else
      var k :| k in t;
      t[k].size + Mem(t - {k})
  }

  lemma {:induction false} MemSplit<V>(t: Table<V>, k: Key)
    requires k in t
    ensures Mem(t) == t[k].size + Mem(t - {k})
    decreases |t|
  {
    var j :| j in t && Mem(t) == t[j].size + Mem(t - {j});
    if j != k {
      MemSplit(t - {j}, k);
      MemSplit(t - {k}, j);
      assert t - {j} - {k} == t - {k} - {j};
    }
  }

  lemma MemUpdate<V>(t: Table<V>, k: Key, e: Entry<V>)
    ensures Mem(t[k := e]) == e.size + Mem(t - {k})
  {
    MemSplit(t[k := e], k);
    assert t[k := e] - {k} == t - {k};
  }

  lemma {:induction false} MemDrop<V>(t: Table<V>, k: Key)
    ensures k in t ==> Mem(t - {k}) == Mem(t) - t[k].size
    ensures k !in t ==> t - {k} == t
  {
    if k in t {
      MemSplit(t, k);
    }
  }

  lemma {:induction false} MemShrinks<V>(t: Table<V>, ks: set<Key>)
    ensures Mem(t - ks) <= Mem(t)
    decreases |t|
  {
    if k :| k in t && k in ks {
      MemSplit(t, k);
      MemShrinks(t - {k}, ks);
      assert t - {k} - ks == t - ks;
    } else {
      assert t - ks == t;
    }
  }

  // The keys of a sequence, as a set.
  function Keys(q: seq<Key>): set<Key> {
    set k | k in q
  }
}
