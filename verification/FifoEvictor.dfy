// The FIFO evictor: a queue of touches, in which a key stands once for each touch.

module FifoEvictor {
  import opened Basics
  import opened EvictionPolicy

  class FifoEvictor {
    var queue: seq<Key>

    constructor ()
      ensures queue == []
    {
      queue := [];
    }

    method TouchKey(key: Key)
      modifies this
      ensures queue == Touched(Fifo, old(queue), key)
    {
      queue := queue + [key];
    }

    // The front of the queue, or "" when it is empty.
    method Evict() returns (key: Key)
      modifies this
      ensures key == Front(old(queue)) && queue == Popped(old(queue))
    {
      if queue != [] {
        key := queue[0];
        queue := queue[1..];
        return;
      }
      return NO_KEY;
    }
  }
}
