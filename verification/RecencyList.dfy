// The simple LRU cache: one list of rows, least recently used first, and no other state. Here are
// its operations and what holds of it; the real cache is shown to be it in another module.

module RecencyList {
  import opened Basics
  import opened CacheModel

  datatype Row<+V> = Row(key: Key, entry: Entry<V>)

  datatype ListOutcome<+V> = ListOutcome(reply: Reply<V>, rows: seq<Row<V>>)

  function Find<V>(l: seq<Row<V>>, k: Key): Option<Entry<V>> {
    if l == [] then None
    else if l[0].key == k then Some(l[0].entry)
    else Find(l[1..], k)
  }

  function Drop<V>(l: seq<Row<V>>, k: Key): seq<Row<V>> {
    if l == [] then []
    else if l[0].key == k then Drop(l[1..], k)
    else [l[0]] + Drop(l[1..], k)
  }

  function Weigh<V>(l: seq<Row<V>>): nat {
    if l == [] then 0 else l[0].entry.size + Weigh(l[1..])
  }

  // The rows left when the oldest are dropped until the rest weighs at most `room`.
  function Fit<V>(l: seq<Row<V>>, room: int): seq<Row<V>> {
    if l == [] || Weigh(l) <= room then l else Fit(l[1..], room)
  }

  function ListSet<V>(maxmem: u32, l: seq<Row<V>>, k: Key, e: Entry<V>): ListOutcome<V> {
    var found := Find(l, k);
    if e.size - (if found.Some? then found.value.size else 0) > maxmem then ListOutcome(TooLarge, l)
    else if e.size > maxmem then ListOutcome(AssertFails(OnEviction), [])
    else ListOutcome(Stored, Fit(Drop(l, k), maxmem - e.size) + [Row(k, e)])
  }

  function ListStep<V>(maxmem: u32, l: seq<Row<V>>, op: Op<V>): ListOutcome<V> {
    match op
    case SetOp(k, e) => ListSet(maxmem, l, k, e)
    case GetOp(k) =>
      (match Find(l, k)
       case None => ListOutcome(Miss, l)
       case Some(e) => ListOutcome(Hit(e.data, e.size), Drop(l, k) + [Row(k, e)]))
    case DelOp(k) => ListOutcome(Deleted(Find(l, k).Some?), Drop(l, k))
    case ResetOp => ListOutcome(Cleared, [])
    case SpaceOp => ListOutcome(Used(Weigh(l)), l)
  }

  // ----- rows under distinct keys -----

  ghost predicate Distinct<V>(l: seq<Row<V>>) {
    l != [] ==> Find(l[1..], l[0].key) == None && Distinct(l[1..])
  }

  lemma {:induction false} FindInDrop<V>(l: seq<Row<V>>, k: Key, j: Key)
    ensures Find(Drop(l, k), j) == if j == k then None else Find(l, j)
  {
    if l != [] {
      FindInDrop(l[1..], k, j);
    }
  }

  lemma {:induction false} FindInFit<V>(l: seq<Row<V>>, room: int, k: Key)
    requires Find(l, k) == None
    ensures Find(Fit(l, room), k) == None
  {
    if l != [] {
      FindInFit(l[1..], room, k);
    }
  }

  lemma {:induction false} DropKeepsDistinct<V>(l: seq<Row<V>>, k: Key)
    requires Distinct(l)
    ensures Distinct(Drop(l, k))
  {
    if l != [] {
      DropKeepsDistinct(l[1..], k);
      FindInDrop(l[1..], k, l[0].key);
    }
  }

  lemma {:induction false} FindInAppend<V>(l: seq<Row<V>>, r: Row<V>, k: Key)
    ensures Find(l + [r], k) == if Find(l, k).Some? then Find(l, k) else if r.key == k then Some(r.entry) else None
  {
    if l != [] {
      FindInAppend(l[1..], r, k);
      assert (l + [r])[1..] == l[1..] + [r];
    }
  }

  // ----- a larger cache holds what a smaller one holds -----

  // The rows of the smaller cache are the most recently used rows of the larger one.
  ghost predicate Suffix<V>(a: seq<Row<V>>, b: seq<Row<V>>)
    decreases |b|
  {
    a == b || (b != [] && Suffix(a, b[1..]))
  }

  lemma {:induction false} SuffixLength<V>(a: seq<Row<V>>, b: seq<Row<V>>)
    requires Suffix(a, b)
    ensures |a| <= |b| && b[|b| - |a|..] == a
    decreases |b|
  {
    if a != b {
      SuffixLength(a, b[1..]);
    }
  }

  lemma {:induction false} SuffixTail<V>(a: seq<Row<V>>, b: seq<Row<V>>)
    requires Suffix(a, b) && a != []
    ensures Suffix(a[1..], b)
    decreases |b|
  {
    if a != b {
      SuffixTail(a, b[1..]);
    } else {
      assert Suffix(b[1..], b[1..]);
    }
  }

  lemma {:induction false} DropKeepsSuffix<V>(a: seq<Row<V>>, b: seq<Row<V>>, k: Key)
    requires Suffix(a, b)
    ensures Suffix(Drop(a, k), Drop(b, k))
    decreases |b|
  {
    if a != b {
      DropKeepsSuffix(a, b[1..], k);
    }
  }

  lemma {:induction false} FitKeepsSuffix<V>(a: seq<Row<V>>, b: seq<Row<V>>, m: int, n: int)
    requires Suffix(a, b) && m <= n
    ensures Suffix(Fit(a, m), Fit(b, n))
    decreases |b|
  {
    if b == [] || Weigh(b) <= n {
      FitIsSuffix(a, b, m);
    } else if a == b {
      FitKeepsSuffix(a[1..], b[1..], m, n);
    } else {
      FitKeepsSuffix(a, b[1..], m, n);
    }
  }

  lemma {:induction false} FitIsSuffix<V>(a: seq<Row<V>>, b: seq<Row<V>>, m: int)
    requires Suffix(a, b)
    ensures Suffix(Fit(a, m), b)
    decreases |a|
  {
    if a != [] && Weigh(a) > m {
      SuffixTail(a, b);
      FitIsSuffix(a[1..], b, m);
    }
  }

  lemma {:induction false} AppendKeepsSuffix<V>(a: seq<Row<V>>, b: seq<Row<V>>, r: Row<V>)
    requires Suffix(a, b)
    ensures Suffix(a + [r], b + [r])
    decreases |b|
  {
    if a != b {
      AppendKeepsSuffix(a, b[1..], r);
      assert (b + [r])[1..] == b[1..] + [r];
    }
  }

  // Under distinct keys, what the smaller cache finds the larger one finds too.
  lemma {:induction false} FindInSuffix<V>(a: seq<Row<V>>, b: seq<Row<V>>, k: Key)
    requires Suffix(a, b) && Distinct(b) && Find(a, k).Some?
    ensures Find(b, k) == Find(a, k)
    decreases |b|
  {
    if a != b {
      FindInSuffix(a, b[1..], k);
    }
  }

  // One operation keeps the inclusion, if a value fits the smaller cache, and a get hits in both
  // caches or misses in both.
  lemma {:induction false} StepKeepsSuffix<V>(m: u32, a: seq<Row<V>>, n: u32, b: seq<Row<V>>, op: Op<V>)
    requires Suffix(a, b) && Distinct(b) && m <= n
    requires op.SetOp? ==> op.entry.size <= m
    requires op.GetOp? ==> (Find(a, op.key).Some? <==> Find(b, op.key).Some?)
    ensures Suffix(ListStep(m, a, op).rows, ListStep(n, b, op).rows)
  {
    if !op.ResetOp? && !op.SpaceOp? {
      var k := op.key;
      DropKeepsSuffix(a, b, k);
      match op {
        case SetOp(_, e) =>
          FitKeepsSuffix(Drop(a, k), Drop(b, k), m - e.size, n - e.size);
          AppendKeepsSuffix(Fit(Drop(a, k), m - e.size), Fit(Drop(b, k), n - e.size), Row(k, e));
        case GetOp(_) =>
          if Find(a, k).Some? {
            FindInSuffix(a, b, k);
            AppendKeepsSuffix(Drop(a, k), Drop(b, k), Row(k, Find(a, k).value));
          }
        case DelOp(_) =>
      }
    }
  }

  // A get that hits in the larger cache only breaks this, unless the smaller cache is empty.
  lemma {:induction false} UnevenGetKeepsSuffixIff<V>(m: u32, a: seq<Row<V>>, n: u32, b: seq<Row<V>>, k: Key)
    requires Suffix(a, b) && Distinct(b) && Find(a, k).None? && Find(b, k).Some?
    ensures Suffix(ListStep(m, a, GetOp(k)).rows, ListStep(n, b, GetOp(k)).rows) <==> a == []
  {
    var r := Row(k, Find(b, k).value);
    if a == [] {
      EmptyIsSuffix(Drop(b, k) + [r]);
    } else if Suffix(a, Drop(b, k) + [r]) {
      SuffixLength(a, Drop(b, k) + [r]);
      assert a[|a| - 1] == r;
      FindAt(a, |a| - 1);
    }
  }

  lemma {:induction false} EmptyIsSuffix<V>(b: seq<Row<V>>)
    ensures Suffix([], b)
  {
    if b != [] {
      EmptyIsSuffix(b[1..]);
    }
  }

  lemma {:induction false} FindAt<V>(l: seq<Row<V>>, i: nat)
    requires i < |l|
    ensures Find(l, l[i].key).Some?
  {
    if i > 0 {
      FindAt(l[1..], i - 1);
    }
  }

  // ----- a larger cache that never loses a row of a smaller one -----

  // The rows of the smaller list are rows of the larger, in the same order.
  ghost predicate InOrder<V>(a: seq<Row<V>>, b: seq<Row<V>>)
    decreases |b|
  {
    if b == [] then a == []
    else InOrder(a, b[1..]) || (a != [] && a[0] == b[0] && InOrder(a[1..], b[1..]))
  }

  // And each of them has at most `slack` more bytes from it on in the larger list.
  ghost predicate Covers<V>(a: seq<Row<V>>, b: seq<Row<V>>, slack: int)
    decreases |b|
  {
    if b == [] then a == []
    else
      || Covers(a, b[1..], slack)
      || (a != [] && a[0] == b[0] && Weigh(b) <= Weigh(a) + slack && Covers(a[1..], b[1..], slack))
  }

  // The rows from a key on.
  function From<V>(l: seq<Row<V>>, k: Key): seq<Row<V>> {
    if l == [] then [] else if l[0].key == k then l else From(l[1..], k)
  }

  lemma {:induction false} CoversInOrder<V>(a: seq<Row<V>>, b: seq<Row<V>>, slack: int)
    requires Covers(a, b, slack)
    ensures InOrder(a, b)
    decreases |b|
  {
    if b != [] {
      if Covers(a, b[1..], slack) {
        CoversInOrder(a, b[1..], slack);
      } else {
        CoversInOrder(a[1..], b[1..], slack);
      }
    }
  }

  lemma {:induction false} FindInOrder<V>(a: seq<Row<V>>, b: seq<Row<V>>, k: Key)
    requires InOrder(a, b) && Distinct(b) && Find(a, k).Some?
    ensures Find(b, k) == Find(a, k)
    decreases |b|
  {
    if b != [] {
      if InOrder(a, b[1..]) {
        FindInOrder(a, b[1..], k);
      } else if a[0].key != k {
        FindInOrder(a[1..], b[1..], k);
      }
    }
  }

  lemma {:induction false} CoversTail<V>(a: seq<Row<V>>, b: seq<Row<V>>, slack: int)
    requires Covers(a, b, slack) && a != []
    ensures Covers(a[1..], b, slack)
    decreases |b|
  {
    if Covers(a, b[1..], slack) {
      CoversTail(a, b[1..], slack);
    }
  }

  lemma {:induction false} WeighDrop<V>(l: seq<Row<V>>, k: Key)
    requires Distinct(l)
    ensures Weigh(Drop(l, k)) == Weigh(l) - (if Find(l, k).Some? then Find(l, k).value.size else 0)
  {
    if l != [] {
      WeighDrop(l[1..], k);
    }
  }

  lemma {:induction false} WeighAppend<V>(l: seq<Row<V>>, r: Row<V>)
    ensures Weigh(l + [r]) == Weigh(l) + r.entry.size
  {
    if l == [] {
      assert l + [r] == [r];
    } else {
      WeighAppend(l[1..], r);
      assert (l + [r])[1..] == l[1..] + [r];
    }
  }

  lemma {:induction false} InOrderKeepsDistinct<V>(a: seq<Row<V>>, b: seq<Row<V>>)
    requires InOrder(a, b) && Distinct(b)
    ensures Distinct(a)
    decreases |b|
  {
    if b != [] {
      if InOrder(a, b[1..]) {
        InOrderKeepsDistinct(a, b[1..]);
      } else {
        InOrderKeepsDistinct(a[1..], b[1..]);
        if Find(a[1..], a[0].key).Some? {
          FindInOrder(a[1..], b[1..], a[0].key);
        }
      }
    }
  }

  lemma {:induction false} DropKeepsCovers<V>(a: seq<Row<V>>, b: seq<Row<V>>, k: Key, slack: int)
    requires Covers(a, b, slack) && Distinct(b)
    ensures Covers(Drop(a, k), Drop(b, k), slack)
    decreases |b|
  {
    if b != [] {
      if Covers(a, b[1..], slack) {
        DropKeepsCovers(a, b[1..], k, slack);
      } else {
        DropKeepsCovers(a[1..], b[1..], k, slack);
        if a[0].key != k {
          DropKeepsSlack(a, b, k, slack);
        }
      }
    }
  }

  // A dropped row leaves both weights, or the larger only.
  lemma {:induction false} DropKeepsSlack<V>(a: seq<Row<V>>, b: seq<Row<V>>, k: Key, slack: int)
    requires Covers(a, b, slack) && Distinct(b) && Weigh(b) <= Weigh(a) + slack
    ensures Weigh(Drop(b, k)) <= Weigh(Drop(a, k)) + slack
  {
    CoversInOrder(a, b, slack);
    InOrderKeepsDistinct(a, b);
    WeighDrop(a, k);
    WeighDrop(b, k);
    if Find(a, k).Some? {
      FindInOrder(a, b, k);
    }
  }

  lemma {:induction false} FitKeepsCovers<V>(a: seq<Row<V>>, b: seq<Row<V>>, room: int, slack: int)
    requires Covers(a, b, slack)
    ensures Covers(Fit(a, room), Fit(b, room + slack), slack)
    decreases |b|
  {
    if b == [] || Weigh(b) <= room + slack {
      FitIsCovered(a, b, room, slack);
    } else if Covers(a, b[1..], slack) {
      FitKeepsCovers(a, b[1..], room, slack);
    } else {
      FitKeepsCovers(a[1..], b[1..], room, slack);
    }
  }

  lemma {:induction false} FitIsCovered<V>(a: seq<Row<V>>, b: seq<Row<V>>, room: int, slack: int)
    requires Covers(a, b, slack)
    ensures Covers(Fit(a, room), b, slack)
    decreases |a|
  {
    if a != [] && Weigh(a) > room {
      CoversTail(a, b, slack);
      FitIsCovered(a[1..], b, room, slack);
    }
  }

  lemma {:induction false} AppendKeepsCovers<V>(a: seq<Row<V>>, b: seq<Row<V>>, r: Row<V>, slack: nat)
    requires Covers(a, b, slack)
    ensures Covers(a + [r], b + [r], slack)
    decreases |b|
  {
    if b == [] {
      assert a + [r] == [r] == b + [r];
      assert [r][1..] == [];
    } else {
      assert (b + [r])[1..] == b[1..] + [r];
      if Covers(a, b[1..], slack) {
        AppendKeepsCovers(a, b[1..], r, slack);
      } else {
        assert (a + [r])[1..] == a[1..] + [r];
        AppendKeepsCovers(a[1..], b[1..], r, slack);
        WeighAppend(a, r);
        WeighAppend(b, r);
      }
    }
  }

  // One operation that both caches see alike keeps the covering.
  lemma {:induction false} StepKeepsCovers<V>(m: u32, a: seq<Row<V>>, n: u32, b: seq<Row<V>>, op: Op<V>)
    requires m <= n && Covers(a, b, n - m) && Distinct(b)
    requires op.SetOp? ==> op.entry.size <= m
    requires op.GetOp? ==> (Find(a, op.key).Some? <==> Find(b, op.key).Some?)
    ensures Covers(ListStep(m, a, op).rows, ListStep(n, b, op).rows, n - m)
  {
    if !op.ResetOp? && !op.SpaceOp? {
      var k, slack := op.key, n - m;
      DropKeepsCovers(a, b, k, slack);
      match op {
        case SetOp(_, e) =>
          FitKeepsCovers(Drop(a, k), Drop(b, k), m - e.size, slack);
          AppendKeepsCovers(Fit(Drop(a, k), m - e.size), Fit(Drop(b, k), n - e.size), Row(k, e), slack);
        case GetOp(_) =>
          if Find(a, k).Some? {
            CoversInOrder(a, b, slack);
            FindInOrder(a, b, k);
            AppendKeepsCovers(Drop(a, k), Drop(b, k), Row(k, Find(a, k).value), slack);
          }
        case DelOp(_) =>
      }
    }
  }

  // Where the covering fails, some row has too many bytes from it on.
  lemma {:induction false} UncoveredRow<V>(a: seq<Row<V>>, b: seq<Row<V>>, slack: int) returns (k: Key)
    requires InOrder(a, b) && Distinct(b) && !Covers(a, b, slack)
    ensures Find(a, k).Some? && Weigh(From(b, k)) > Weigh(From(a, k)) + slack
    decreases |b|
  {
    if InOrder(a, b[1..]) {
      k := UncoveredRow(a, b[1..], slack);
      FindInOrder(a, b[1..], k);
    } else if Weigh(b) > Weigh(a) + slack {
      k := a[0].key;
    } else {
      k := UncoveredRow(a[1..], b[1..], slack);
      FindInOrder(a[1..], b[1..], k);
    }
  }

  // A row stays in the list exactly when what stands from it on fits.
  lemma {:induction false} FindInFitIff<V>(l: seq<Row<V>>, room: int, k: Key)
    requires Distinct(l) && Find(l, k).Some?
    ensures Find(Fit(l, room), k) == if Weigh(From(l, k)) <= room then Find(l, k) else None
  {
    if l[0].key == k {
      if Weigh(l) > room {
        FindInFit(l[1..], room, k);
      }
    } else {
      FromWeighs(l, k);
      FindInFitIff(l[1..], room, k);
    }
  }

  lemma {:induction false} FromWeighs<V>(l: seq<Row<V>>, k: Key)
    ensures Weigh(From(l, k)) <= Weigh(l)
  {
    if l != [] {
      FromWeighs(l[1..], k);
    }
  }

  lemma {:induction false} DropAbsent<V>(l: seq<Row<V>>, k: Key)
    requires Find(l, k) == None
    ensures Drop(l, k) == l
  {
    if l != [] {
      DropAbsent(l[1..], k);
    }
  }

  // There, a fresh value of just the right size drops the row from the larger list only.
  lemma {:induction false} LosesRow<V>(m: u32, a: seq<Row<V>>, n: u32, b: seq<Row<V>>, k: Key, added: Row<V>)
    requires m <= n && Distinct(a) && Distinct(b) && Find(a, k).Some? && Find(b, k).Some?
    requires Weigh(From(b, k)) > Weigh(From(a, k)) + (n - m)
    requires Find(a, added.key) == Find(b, added.key) == None && added.entry.size == m - Weigh(From(a, k))
    ensures Find(ListSet(m, a, added.key, added.entry).rows, k).Some?
    ensures Find(ListSet(n, b, added.key, added.entry).rows, k).None?
  {
    DropAbsent(a, added.key);
    DropAbsent(b, added.key);
    FindInFitIff(a, m - added.entry.size, k);
    FindInFitIff(b, n - added.entry.size, k);
    FindInAppend(Fit(a, m - added.entry.size), added, k);
    FindInAppend(Fit(b, n - added.entry.size), added, k);
  }

  lemma {:induction false} SuffixIsCovered<V>(a: seq<Row<V>>, b: seq<Row<V>>, slack: nat)
    requires Suffix(a, b)
    ensures Covers(a, b, slack)
    decreases |b|
  {
    if a != b {
      SuffixIsCovered(a, b[1..], slack);
    } else if b != [] {
      assert Suffix(a[1..], b[1..]);
      SuffixIsCovered(a[1..], b[1..], slack);
    }
  }

  // After a get that hits in the larger cache only, the covering holds exactly when the smaller is
  // empty or the row got is no larger than the difference in capacity.
  lemma {:induction false} UnevenGetCoversIff<V>(a: seq<Row<V>>, b: seq<Row<V>>, got: Row<V>, slack: nat)
    requires Suffix(a, b) && Distinct(b) && Find(a, got.key).None? && Find(b, got.key) == Some(got.entry)
    ensures InOrder(a, Drop(b, got.key) + [got])
    ensures Covers(a, Drop(b, got.key) + [got], slack) <==> a == [] || got.entry.size <= slack
  {
    DropAbsent(a, got.key);
    DropKeepsSuffix(a, b, got.key);
    DropKeepsDistinct(b, got.key);
    FindInDrop(b, got.key, got.key);
    AppendedCoversIff(a, Drop(b, got.key), got, slack);
  }

  lemma {:induction false} AppendedCoversIff<V>(a: seq<Row<V>>, b: seq<Row<V>>, r: Row<V>, slack: nat)
    requires Suffix(a, b) && Distinct(b) && Find(b, r.key) == None
    ensures InOrder(a, b + [r])
    ensures Covers(a, b + [r], slack) <==> a == [] || r.entry.size <= slack
    decreases |b|
  {
    if a == [] {
      EmptyIsCovered(b + [r], slack);
      CoversInOrder(a, b + [r], slack);
    } else {
      assert (b + [r])[1..] == b[1..] + [r];
      FindInAppend(b[1..], r, b[0].key);
      if a == b {
        assert Suffix(a[1..], b[1..]);
        AppendedCoversIff(a[1..], b[1..], r, slack);
        WeighAppend(b, r);
        NotCoveredBy(a, b[1..] + [r], slack);
      } else {
        AppendedCoversIff(a, b[1..], r, slack);
        FindAt(a, 0);
        FindInSuffix(a, b[1..], a[0].key);
      }
    }
  }

  lemma {:induction false} EmptyIsCovered<V>(b: seq<Row<V>>, slack: int)
    ensures Covers([], b, slack)
  {
    if b != [] {
      EmptyIsCovered(b[1..], slack);
    }
  }

  // A list whose first key is not in another is not covered by it.
  lemma {:induction false} NotCoveredBy<V>(a: seq<Row<V>>, b: seq<Row<V>>, slack: int)
    requires a != [] && Find(b, a[0].key) == None
    ensures !Covers(a, b, slack)
  {
    if Covers(a, b, slack) {
      FirstIsFound(a, b, slack);
    }
  }

  lemma {:induction false} FirstIsFound<V>(a: seq<Row<V>>, b: seq<Row<V>>, slack: int)
    requires a != [] && Covers(a, b, slack)
    ensures Find(b, a[0].key).Some?
    decreases |b|
  {
    if Covers(a, b[1..], slack) {
      FirstIsFound(a, b[1..], slack);
    }
  }

  // ----- when a key is in the cache -----

  // What is known of a followed key: its size, and the sizes of the other keys touched since its
  // own last touch.
  datatype Follower = Gone | Held(size: u32, since: Table<()>)

  // Following `key` through one touch of `k`. It is gone as soon as its size and the others' are
  // over the capacity.
  ghost function FollowTouch(maxmem: int, f: Follower, key: Key, k: Key, size: u32): Follower {
    if k == key then Held(size, map[])
    else if f.Held? && f.size + Mem(f.since[k := Entry((), size)]) <= maxmem then f.(since := f.since[k := Entry((), size)])
    else Gone
  }

  // Following it through one operation and its reply.
  ghost function Followed<V>(maxmem: int, f: Follower, key: Key, op: Op<V>, r: Reply<V>): Follower {
    match op
    case SetOp(k, e) => if r.Stored? then FollowTouch(maxmem, f, key, k, e.size) else f
    case GetOp(k) => if r.Hit? then FollowTouch(maxmem, f, key, k, r.size) else f
    case DelOp(k) => if k == key then Gone else Forgotten(f, k)
    case ResetOp => Gone
    case SpaceOp => f
  }

  function Forgotten(f: Follower, k: Key): Follower {
    if f.Gone? then Gone else f.(since := f.since - {k})
  }

  // What the list itself knows of the key: its size, and the rows after its own.
  function Sizes<V>(l: seq<Row<V>>): Table<()> {
    if l == [] then map[] else Sizes(l[1..])[l[0].key := Entry((), l[0].entry.size)]
  }

  function Seat<V>(l: seq<Row<V>>, key: Key): Follower {
    if l == [] then Gone
    else if l[0].key == key then Held(l[0].entry.size, Sizes(l[1..]))
    else Seat(l[1..], key)
  }

  lemma {:induction false} SeatIsFind<V>(l: seq<Row<V>>, key: Key)
    ensures Seat(l, key).Held? <==> Find(l, key).Some?
    ensures Seat(l, key).Held? ==> Seat(l, key).size == Find(l, key).value.size
  {
    if l != [] && l[0].key != key {
      SeatIsFind(l[1..], key);
    }
  }

  lemma {:induction false} SizesWeigh<V>(l: seq<Row<V>>)
    requires Distinct(l)
    ensures Mem(Sizes(l)) == Weigh(l)
    ensures forall k :: k in Sizes(l) <==> Find(l, k).Some?
  {
    if l != [] {
      var k := l[0].key;
      SizesWeigh(l[1..]);
      MemUpdate(Sizes(l[1..]), k, Entry((), l[0].entry.size));
      MemDrop(Sizes(l[1..]), k);
    }
  }

  lemma {:induction false} SizesAfterDrop<V>(l: seq<Row<V>>, k: Key)
    ensures Sizes(Drop(l, k)) == Sizes(l) - {k}
  {
    if l != [] {
      SizesAfterDrop(l[1..], k);
    }
  }

  lemma {:induction false} SizesAfterAppend<V>(l: seq<Row<V>>, r: Row<V>)
    requires Find(l, r.key) == None
    ensures Sizes(l + [r]) == Sizes(l)[r.key := Entry((), r.entry.size)]
  {
    if l == [] {
      assert (l + [r])[1..] == [];
    } else {
      SizesAfterAppend(l[1..], r);
      assert (l + [r])[1..] == l[1..] + [r];
    }
  }

  lemma {:induction false} SeatAfterDrop<V>(l: seq<Row<V>>, key: Key, k: Key)
    requires k != key
    ensures Seat(Drop(l, k), key) == Forgotten(Seat(l, key), k)
  {
    if l != [] {
      if l[0].key == key {
        SizesAfterDrop(l[1..], k);
      } else {
        SeatAfterDrop(l[1..], key, k);
      }
    }
  }

  lemma {:induction false} SeatWeighs<V>(l: seq<Row<V>>, key: Key)
    requires Distinct(l) && Seat(l, key).Held?
    ensures Seat(l, key).size + Mem(Seat(l, key).since) <= Weigh(l)
  {
    if l[0].key == key {
      SizesWeigh(l[1..]);
    } else {
      SeatWeighs(l[1..], key);
    }
  }

  // Dropping the oldest rows until the rest fits drops the key exactly when it and what stands
  // after it do not fit.
  lemma {:induction false} SeatAfterFit<V>(l: seq<Row<V>>, key: Key, room: int)
    requires Distinct(l)
    ensures var f := Seat(l, key);
            Seat(Fit(l, room), key) == if f.Held? && f.size + Mem(f.since) <= room then f else Gone
  {
    if l != [] {
      if Weigh(l) <= room {
        if Seat(l, key).Held? {
          SeatWeighs(l, key);
        }
      } else if l[0].key == key {
        SizesWeigh(l[1..]);
        FindInFit(l[1..], room, key);
        SeatIsFind(Fit(l[1..], room), key);
      } else {
        SeatAfterFit(l[1..], key, room);
      }
    }
  }

  lemma {:induction false} SeatAfterAppend<V>(l: seq<Row<V>>, key: Key, r: Row<V>)
    requires Find(l, r.key) == None
    ensures var f := Seat(l, key);
            Seat(l + [r], key) ==
            if r.key == key then Held(r.entry.size, map[])
            else if f.Held? then f.(since := f.since[r.key := Entry((), r.entry.size)])
            else Gone
  {
    if l == [] {
      assert (l + [r])[1..] == [];
    } else {
      assert (l + [r])[1..] == l[1..] + [r];
      if l[0].key == key {
        SizesAfterAppend(l[1..], r);
      } else {
        SeatAfterAppend(l[1..], key, r);
      }
    }
  }

  lemma {:induction false} TouchIsFollowed<V>(maxmem: int, l: seq<Row<V>>, key: Key, r: Row<V>)
    requires Distinct(l)
    ensures Seat(Fit(Drop(l, r.key), maxmem - r.entry.size) + [r], key) ==
            FollowTouch(maxmem, Seat(l, key), key, r.key, r.entry.size)
  {
    var k, room := r.key, maxmem - r.entry.size;
    FindInDrop(l, k, k);
    FindInFit(Drop(l, k), room, k);
    SeatAfterAppend(Fit(Drop(l, k), room), key, r);
    if k != key {
      DropKeepsDistinct(l, k);
      SeatAfterDrop(l, key, k);
      SeatAfterFit(Drop(l, k), key, room);
      if Seat(l, key).Held? {
        var since := Seat(l, key).since;
        MemUpdate(since, k, Entry((), r.entry.size));
        assert (since - {k})[k := Entry((), r.entry.size)] == since[k := Entry((), r.entry.size)];
      }
    }
  }

  // What the list knows of any key after an operation is what following the key tells, which looks
  // at the operation and the reply only.
  lemma {:induction false} StepIsFollowed<V>(maxmem: u32, l: seq<Row<V>>, op: Op<V>, key: Key)
    requires Distinct(l) && Weigh(l) <= maxmem && !ListStep(maxmem, l, op).reply.Faulty()
    ensures var o := ListStep(maxmem, l, op);
            Seat(o.rows, key) == Followed(maxmem, Seat(l, key), key, op, o.reply)
  {
    match op {
      case SetOp(k, e) =>
        TouchIsFollowed(maxmem, l, key, Row(k, e));
      case GetOp(k) =>
        if Find(l, k).Some? {
          TouchIsFollowed(maxmem, l, key, Row(k, Find(l, k).value));
          WeighDrop(l, k);
        }
      case DelOp(k) =>
        if k == key {
          FindInDrop(l, k, k);
          SeatIsFind(Drop(l, k), k);
        } else {
          SeatAfterDrop(l, key, k);
        }
      case ResetOp =>
      case SpaceOp =>
    }
  }

  // ----- a working set that fits stays -----

  // A coarser account of the key: each of the others counts at its largest, and nothing makes the
  // key go but its own removal.
  function Raised(since: Table<()>, k: Key, size: u32): Table<()> {
    since[k := Entry((), if k in since && since[k].size > size then since[k].size else size)]
  }

  function WatchTouch(w: Follower, key: Key, k: Key, size: u32): Follower {
    if k == key then Held(size, map[])
    else if w.Gone? then Gone
    else w.(since := Raised(w.since, k, size))
  }

  function Watched<V>(w: Follower, key: Key, op: Op<V>, r: Reply<V>): Follower {
    match op
    case SetOp(k, e) => if r.Stored? then WatchTouch(w, key, k, e.size) else w
    case GetOp(k) => if r.Hit? then WatchTouch(w, key, k, r.size) else w
    case DelOp(k) => if k == key then Gone else w
    case ResetOp => Gone
    case SpaceOp => w
  }

  ghost predicate FitsIn(w: Follower, maxmem: int) {
    w.Held? && w.size + Mem(w.since) <= maxmem
  }

  ghost predicate Below(a: Table<()>, b: Table<()>) {
    forall k :: k in a ==> k in b && a[k].size <= b[k].size
  }

  lemma {:induction false} BelowWeighs(a: Table<()>, b: Table<()>)
    requires Below(a, b)
    ensures Mem(a) <= Mem(b)
    decreases |a|
  {
    if k :| k in a {
      MemSplit(a, k);
      MemSplit(b, k);
      BelowWeighs(a - {k}, b - {k});
    }
  }

  // While what is watched fits, the key is held, and the others are counted at least as large.
  ghost predicate Guaranteed(maxmem: int, f: Follower, w: Follower) {
    FitsIn(w, maxmem) ==> f.Held? && f.size == w.size && Below(f.since, w.since)
  }

  lemma {:induction false} TouchKeepsGuarantee(maxmem: int, f: Follower, w: Follower, key: Key, k: Key, size: u32)
    requires Guaranteed(maxmem, f, w)
    ensures Guaranteed(maxmem, FollowTouch(maxmem, f, key, k, size), WatchTouch(w, key, k, size))
  {
    if k != key && w.Held? && FitsIn(WatchTouch(w, key, k, size), maxmem) {
      BelowWeighs(w.since, Raised(w.since, k, size));
      BelowWeighs(f.since[k := Entry((), size)], Raised(w.since, k, size));
    }
  }

  lemma {:induction false} StepKeepsGuarantee<V>(maxmem: int, f: Follower, w: Follower, op: Op<V>, key: Key, r: Reply<V>)
    requires Guaranteed(maxmem, f, w)
    ensures Guaranteed(maxmem, Followed(maxmem, f, key, op, r), Watched(w, key, op, r))
  {
    match op {
      case SetOp(k, e) => TouchKeepsGuarantee(maxmem, f, w, key, k, e.size);
      case GetOp(k) =>
        if r.Hit? {
          TouchKeepsGuarantee(maxmem, f, w, key, k, r.size);
        }
      case DelOp(_) =>
      case ResetOp =>
      case SpaceOp =>
    }
  }
}
