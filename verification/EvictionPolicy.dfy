// What an evictor promises, stated on the sequence of keys it would evict, front first.

module EvictionPolicy {
  import opened Basics
  import opened Sequences

  datatype Policy = Lru | Fifo

  // The queue after a key is touched: LRU moves it to the back, FIFO appends one more occurrence.
  function Touched(p: Policy, q: seq<Key>, k: Key): seq<Key> {
    match p
    case Lru => Without(q, k) + [k]
    case Fifo => q + [k]
  }

  // What `evict` answers, and the queue it leaves.
  function Front(q: seq<Key>): Key {
    if q == [] then NO_KEY else q[0]
  }

  function Popped(q: seq<Key>): seq<Key> {
    if q == [] then [] else q[1..]
  }

  // An evictor as the cache sees it, or none.
  datatype EvictorModel = NoEvictor | Evictor(policy: Policy, queue: seq<Key>) {
    function Touch(k: Key): EvictorModel {
      if NoEvictor? then this else this.(queue := Touched(policy, queue, k))
    }

    function Pop(): EvictorModel {
      if NoEvictor? then this else this.(queue := Popped(queue))
    }
  }

  // The contract every policy meets: a touch adds the key and loses none, and puts it last;
  // LRU moreover never repeats a key.
  lemma TouchContract(p: Policy, q: seq<Key>, k: Key)
    ensures Keys(Touched(p, q, k)) == Keys(q) + {k}
    ensures Touched(p, q, k) != [] && Touched(p, q, k)[|Touched(p, q, k)| - 1] == k
    ensures p.Lru? && NoDuplicates(q) ==> NoDuplicates(Touched(p, q, k))
  {
    WithoutMembers(q, k);
    if NoDuplicates(q) {
      WithoutKeepsDistinct(q, k);
    }
  }

  // ----- the queue of a whole history -----

  datatype Event = Touch(key: Key) | Evict

  // The queue after a history of touches and evictions that starts empty.
  function QueueOf(p: Policy, es: seq<Event>): seq<Key> {
    if es == [] then []
    else
      var q := QueueOf(p, es[..|es| - 1]);
      match es[|es| - 1]
      case Touch(k) => Touched(p, q, k)
      case Evict => Popped(q)
  }

  // ----- LRU against time stamps -----

  // The reference: each tracked key with the time of its last touch. An eviction forgets the
  // key whose last touch is the oldest.
  ghost predicate IsOldest(m: map<Key, nat>, k: Key) {
    k in m && forall j :: j in m && j != k ==> m[k] < m[j]
  }

  ghost function Stamps(es: seq<Event>): map<Key, nat> {
    if es == [] then map[]
    else
      var m := Stamps(es[..|es| - 1]);
      match es[|es| - 1]
      case Touch(k) => m[k := |es| - 1]
      case Evict => map k | k in m && !IsOldest(m, k) :: m[k]
  }

  // A queue lists a stamp map when it holds exactly its keys, in increasing order of their stamps.
  ghost predicate Lists(q: seq<Key>, m: map<Key, nat>) {
    && Keys(q) == m.Keys
    && forall i, j :: 0 <= i < j < |q| ==> m[q[i]] < m[q[j]]
  }

  lemma {:induction false} StampsInPast(es: seq<Event>)
    ensures forall k :: k in Stamps(es) ==> Stamps(es)[k] < |es|
  {
    if es != [] {
      StampsInPast(es[..|es| - 1]);
    }
  }

  lemma {:induction false} WithoutKeepsOrder(q: seq<Key>, m: map<Key, nat>, k: Key)
    requires Keys(q) <= m.Keys
    requires forall i, j :: 0 <= i < j < |q| ==> m[q[i]] < m[q[j]]
    ensures Keys(Without(q, k)) <= m.Keys
    ensures forall i, j :: 0 <= i < j < |Without(q, k)| ==> m[Without(q, k)[i]] < m[Without(q, k)[j]]
  {
    WithoutMembers(q, k);
    if q != [] {
      forall x | x in q[1..] ensures m[q[0]] < m[x] {
        var i :| 0 <= i < |q[1..]| && q[1..][i] == x;
        assert q[i + 1] == x;
      }
      WithoutKeepsOrder(q[1..], m, k);
      WithoutMembers(q[1..], k);
    }
  }

  // The LRU list is always the tracked keys sorted by the time of their last touch.
  lemma {:induction false} LruSortsByLastTouch(es: seq<Event>)
    ensures Lists(QueueOf(Lru, es), Stamps(es))
  {
    if es != [] {
      var past := es[..|es| - 1];
      var q, m := QueueOf(Lru, past), Stamps(past);
      LruSortsByLastTouch(past);
      match es[|es| - 1] {
        case Touch(k) =>
          StampsInPast(past);
          TouchKeepsLists(q, m, k, |past|);
        case Evict =>
          EvictKeepsLists(q, m);
      }
    }
  }

  lemma {:induction false} TouchKeepsLists(q: seq<Key>, m: map<Key, nat>, k: Key, now: nat)
    requires Lists(q, m) && forall j :: j in m ==> m[j] < now
    ensures Lists(Touched(Lru, q, k), m[k := now])
  {
    WithoutMembers(q, k);
    WithoutKeepsOrder(q, m, k);
    TouchContract(Lru, q, k);
  }

  lemma {:induction false} EvictKeepsLists(q: seq<Key>, m: map<Key, nat>)
    requires Lists(q, m)
    ensures Lists(Popped(q), map k | k in m && !IsOldest(m, k) :: m[k])
  {
    FrontIsOldest(q, m);
    if q != [] {
      RestIsListed(q, m);
      assert (map k | k in m && !IsOldest(m, k) :: m[k]) == m - {q[0]};
    }
  }

  lemma RestIsListed(q: seq<Key>, m: map<Key, nat>)
    requires Lists(q, m) && q != []
    ensures Lists(q[1..], m - {q[0]})
  {
    assert q == [q[0]] + q[1..];
    forall i, j | 0 <= i < j < |q[1..]| ensures m[q[1..][i]] < m[q[1..][j]] {
      assert q[1..][i] == q[i + 1] && q[1..][j] == q[j + 1];
    }
    assert q[0] !in q[1..];
  }

  lemma FrontIsOldest(q: seq<Key>, m: map<Key, nat>)
    requires Lists(q, m)
    ensures q == [] <==> m == map[]
    ensures forall k :: IsOldest(m, k) <==> q != [] && k == q[0]
  {
    if q == [] {
      assert m.Keys == {};
    } else {
      assert q[0] in Keys(q);
      forall j | j in m && j != q[0] ensures m[q[0]] < m[j] {
        assert j in Keys(q);
        var i :| 0 <= i < |q| && q[i] == j;
      }
      assert IsOldest(m, q[0]);
    }
  }

  // An LRU eviction answers the key with the oldest last touch, and "" exactly when none is left.
  lemma {:induction false} LruEvictsOldest(es: seq<Event>)
    requires forall k :: Touch(k) in es ==> k != NO_KEY
    ensures var k := Front(QueueOf(Lru, es));
            if Stamps(es) == map[] then k == NO_KEY else k != NO_KEY && IsOldest(Stamps(es), k)
  {
    var q := QueueOf(Lru, es);
    LruSortsByLastTouch(es);
    FrontIsOldest(q, Stamps(es));
    OnlyTouchedKeys(Lru, es);
    if q != [] {
      assert q[0] in q && Touch(q[0]) in es;
    }
  }

  lemma {:induction false} OnlyTouchedKeys(p: Policy, es: seq<Event>)
    ensures forall k :: k in QueueOf(p, es) ==> Touch(k) in es
  {
    if es != [] {
      var past := es[..|es| - 1];
      assert es == past + [es[|es| - 1]];
      OnlyTouchedKeys(p, past);
      match es[|es| - 1] {
        case Touch(k) => WithoutMembers(QueueOf(p, past), k);
        case Evict =>
      }
    }
  }

  // ----- FIFO against the history -----

  function Touches(es: seq<Event>): seq<Key> {
    if es == [] then []
    else Touches(es[..|es| - 1]) + (match es[|es| - 1] case Touch(k) => [k] case Evict => [])
  }

  // The answers of the evictions, in order, leaving out the "" of an empty evictor.
  function Answers(p: Policy, es: seq<Event>): seq<Key> {
    if es == [] then []
    else
      var past := es[..|es| - 1];
      var k := Front(QueueOf(p, past));
      Answers(p, past) + (if es[|es| - 1].Evict? && k != NO_KEY then [k] else [])
  }

  // FIFO answers the touches in order, each once: what was answered and what is queued make up
  // exactly what was touched.
  lemma {:induction false} FifoAnswersTouchesInOrder(es: seq<Event>)
    requires forall k :: Touch(k) in es ==> k != NO_KEY
    ensures Answers(Fifo, es) + QueueOf(Fifo, es) == Touches(es)
    ensures |QueueOf(Fifo, es)| == |Touches(es)| - |Answers(Fifo, es)|
  {
    if es != [] {
      var past, last := es[..|es| - 1], es[|es| - 1];
      assert es == past + [last];
      FifoAnswersTouchesInOrder(past);
      OnlyTouchedKeys(Fifo, past);
      var q, done := QueueOf(Fifo, past), Answers(Fifo, past);
      if last.Touch? {
        assert done + (q + [last.key]) == (done + q) + [last.key];
      } else if q != [] {
        assert q[0] in q;
        assert (done + [q[0]]) + q[1..] == done + q;
      }
    }
  }
}
