// The cache's evictor pointer: null, or one of the two evictors. `TouchKey` and `Evict` are the
// virtual calls; their contract is stated on the queue and the policy alone.

module Evictors {
  import opened Basics
  import opened EvictionPolicy
  import L = LruEvictor
  import F = FifoEvictor

  datatype EvictorRef = Null | Lru(lru: L.LruEvictor) | Fifo(fifo: F.FifoEvictor) {

    ghost function Footprint(): set<object>
      reads if Lru? then {lru} else {}
    {
      match this
      case Null => {}
      case Lru(e) => e.Repr()
      case Fifo(e) => {e}
    }

    ghost predicate Valid()
      reads if Lru? then {lru} else {}, Footprint()
    {
      Lru? ==> lru.Valid()
    }

    // What the cache can learn from the evictor: its policy and its queue.
    ghost function Model(): EvictorModel
      reads if Lru? then {lru} else {}, Footprint()
    {
      match this
      case Null => NoEvictor
      case Lru(e) => Evictor(Policy.Lru, e.Queue())
      case Fifo(e) => Evictor(Policy.Fifo, e.queue)
    }

    method TouchKey(key: Key)
      requires !Null? && Valid()
      modifies Footprint()
      ensures Valid() && fresh(Footprint() - old(Footprint()))
      ensures Model() == old(Model()).Touch(key)
    {
      match this
      case Lru(e) => e.TouchKey(key);
      case Fifo(e) => e.TouchKey(key);
    }

    method Evict() returns (key: Key)
      requires !Null? && Valid()
      modifies Footprint()
      ensures Valid() && Footprint() <= old(Footprint())
      ensures key == Front(old(Model()).queue) && Model() == old(Model()).Pop()
    {
      match this
      case Lru(e) => key := e.Evict();
      case Fifo(e) => key := e.Evict();
    }
  }
}
