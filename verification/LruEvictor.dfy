// The LRU evictor: a doubly linked list of keys, least recently used first, and an index from
// each key to its node.

module LruEvictor {
  import opened Basics
  import opened Sequences
  import opened EvictionPolicy

  class Node {
    var prev: Node?
    var next: Node?
    const key: Key

    constructor (key: Key)
      ensures this.key == key && prev == null && next == null
    {
      this.key, prev, next := key, null, null;
    }
  }

  class LruEvictor {
    var table: map<Key, Node>
    var head: Node?
    var tail: Node?

    ghost var nodes: seq<Node>  // the list from head to tail

    ghost function Repr(): set<object>
      reads this
    {
      {this} + set n: object | n in nodes
    }

    // The index maps exactly the keys of the list to their nodes.
    ghost predicate Indexed()
      reads this
    {
      Indexes(table, nodes)
    }

    // The list is doubly linked from head to tail, without repetition.
    ghost predicate Chained()
      reads this, nodes
    {
      && Linked(nodes)
      && head == First(nodes) && tail == Last(nodes)
    }

    ghost predicate Valid()
      reads this, nodes
    {
      Chained() && Indexed()
    }

    // The keys from head to tail.
    ghost function Queue(): (q: seq<Key>)
      reads this
      ensures |q| == |nodes| && forall i :: 0 <= i < |q| ==> q[i] == nodes[i].key
    {
      KeysOf(nodes)
    }

    constructor ()
      ensures Valid() && Queue() == [] && fresh(Repr())
    {
      table := map[];
      head, tail := null, null;
      nodes := [];
    }

    // Inserts an unknown key at the tail, or moves a known one there.
    method TouchKey(key: Key)
      requires Valid()
      modifies Repr()
      ensures Valid() && fresh(Repr() - old(Repr()))
      ensures Queue() == Touched(Lru, old(Queue()), key)
    {
      if key !in table {
        var newNode := new Node(key);
        Append(newNode);
      } else {
        Retouch(key);
      }
    }

    method Retouch(key: Key)
      requires Valid() && key in table
      modifies `head, `tail, `nodes, nodes
      ensures Valid() && forall n :: n in nodes <==> n in old(nodes)
      ensures Queue() == Touched(Lru, old(Queue()), key)
    {
      var address := table[key];
      ghost var was, i := nodes, Place(nodes, address);
      MoveToTail(address, i);
      assert Indexed() && Queue() == Touched(Lru, KeysOf(was), key) by {
        MovedIsTouched(table, was, i);
      }
      assert forall n :: n in nodes <==> n in was by {
        MovedIsTouched(table, was, i);
      }
    }

    // The branches for a known key: the head, the tail (nothing to do), and strictly inside.
    method MoveToTail(address: Node, ghost i: nat)
      requires Chained() && i < |nodes| && nodes[i] == address
      modifies `head, `tail, `nodes, nodes
      ensures Chained() && nodes == Moved(old(nodes), i)
    {
      if address.prev == null {
        assert address == head;
        if address == tail {
          return;
        }
        assert address.next != null && address.next.prev == head;
        RotateHead();
      } else if address == tail {
        assert i == |nodes| - 1;
        return;
      } else {
        MoveFromMiddle(address, i);
      }
    }

    // The insertion branch: an empty list, a list of one node, and the general case.
    method Append(newNode: Node)
      requires Valid() && newNode.key !in table
      requires newNode.prev == null && newNode.next == null
      modifies this, nodes, newNode
      ensures Valid() && Repr() == old(Repr()) + {newNode}
      ensures Queue() == Touched(Lru, old(Queue()), newNode.key)
    {
      AppendedIsTouched(nodes, newNode);
      AppendedIsIndexed(table, nodes, newNode);
      table := table[newNode.key := newNode];
      LinkAtTail(newNode);
    }

    method LinkAtTail(newNode: Node)
      requires Chained() && newNode !in nodes
      requires newNode.prev == null && newNode.next == null
      modifies `head, `tail, `nodes, nodes, newNode
      ensures Chained() && nodes == old(nodes) + [newNode]
    {
      if tail == null {
        assert head == null;
        head := newNode;
        tail := newNode;
        head.next := null;
        tail.prev := null;
      } else if tail == head {
        tail := newNode;
        tail.prev := head;
        head.next := newNode;
        head.prev := null;
      } else {
        assert head != null;
        assert tail.next == null;
        tail.next := newNode;
        newNode.prev := tail;
        tail := newNode;
      }
      nodes := nodes + [newNode];
    }

    // The branch that moves the head of a list of at least two nodes to the tail.
    method RotateHead()
      requires Chained() && |nodes| >= 2
      modifies `head, `tail, `nodes, nodes
      ensures Chained() && nodes == Moved(old(nodes), 0)
    {
      var address := head;
      head := address.next;
      address.next.prev := null;
      assert tail != null;
      tail.next := address;
      address.prev := tail;
      address.next := null;
      tail := address;
      nodes := Moved(nodes, 0);
    }

    // The branch that moves a node from strictly inside the list to the tail.
    method MoveFromMiddle(address: Node, ghost i: nat)
      requires Chained() && 0 < i < |nodes| - 1 && nodes[i] == address
      modifies `head, `tail, `nodes, nodes
      ensures Chained() && nodes == Moved(old(nodes), i)
    {
      assert address.prev != null;
      assert address.next != null;
      address.prev.next := address.next;
      address.next.prev := address.prev;
      assert tail != null;
      tail.next := address;
      address.prev := tail;
      address.next := null;
      tail := address;
      nodes := Moved(nodes, i);
    }

    // Unlinks the head and forgets its key; answers "" when the list is empty.
    method Evict() returns (key: Key)
      requires Valid()
      modifies Repr()
      ensures Valid() && Repr() <= old(Repr())
      ensures key == Front(old(Queue())) && Queue() == Popped(old(Queue()))
    {
      if head == null {
        return NO_KEY;
      }
      key := head.key;
      ghost var index, was := table, nodes;
      UnlinkHead();
      table := table - {key};
      assert Indexed() && key == Front(KeysOf(was)) && Queue() == Popped(KeysOf(was)) by {
        DroppedIsPopped(index, was);
      }
    }

    method UnlinkHead()
      requires Chained() && nodes != []
      modifies `head, `tail, `nodes, nodes
      ensures Chained() && nodes == old(nodes)[1..]
    {
      var evicted := head;
      head := head.next;
      if head != null {
        head.prev := null;
      }
      if tail == evicted {
        tail := null;
        head := null;
      }
      nodes := nodes[1..];
    }
  }

  ghost predicate Indexes(table: map<Key, Node>, nodes: seq<Node>) {
    && (forall n :: n in nodes ==> n.key in table && table[n.key] == n)
    && (forall k :: k in table ==> table[k] in nodes && table[k].key == k)
  }

  // An index of a list without repetition tells its keys apart.
  lemma KeysDistinct(table: map<Key, Node>, nodes: seq<Node>)
    requires NoDuplicates(nodes) && Indexes(table, nodes)
    ensures NoDuplicates(KeysOf(nodes))
  {
    forall i, j | 0 <= i < j < |nodes| ensures nodes[i].key != nodes[j].key {
      assert table[nodes[i].key] == nodes[i] && table[nodes[j].key] == nodes[j];
    }
  }

  // Dropping the first node and its key is popping the queue.
  lemma DroppedIsPopped(table: map<Key, Node>, nodes: seq<Node>)
    requires nodes != [] && NoDuplicates(nodes) && Indexes(table, nodes)
    ensures Indexes(table - {nodes[0].key}, nodes[1..])
    ensures KeysOf(nodes[1..]) == Popped(KeysOf(nodes)) && nodes[0].key == Front(KeysOf(nodes))
    ensures forall n :: n in nodes[1..] ==> n in nodes
  {
    assert KeysOf(nodes[1..]) == KeysOf(nodes)[1..];
    RestIsIndexed(table, nodes[0], nodes[1..]);
  }

  lemma RestIsIndexed(table: map<Key, Node>, first: Node, rest: seq<Node>)
    requires first !in rest && Indexes(table, [first] + rest)
    ensures Indexes(table - {first.key}, rest)
  {
    forall n | n in rest ensures n.key in table && table[n.key] == n && n.key != first.key {
      assert n in [first] + rest && first in [first] + rest;
    }
  }

  ghost function Place(nodes: seq<Node>, n: Node): (i: nat)
    requires n in nodes
    ensures i < |nodes| && nodes[i] == n
  {
    if nodes[0] == n then 0 else 1 + Place(nodes[1..], n)
  }

  ghost function First(nodes: seq<Node>): Node? {
    if nodes == [] then null else nodes[0]
  }

  ghost function Last(nodes: seq<Node>): Node? {
    if nodes == [] then null else nodes[|nodes| - 1]
  }

  ghost function KeysOf(nodes: seq<Node>): (q: seq<Key>)
    ensures |q| == |nodes| && forall i :: 0 <= i < |q| ==> q[i] == nodes[i].key
  {
    seq(|nodes|, i requires 0 <= i < |nodes| => nodes[i].key)
  }

  // The list with the node at one position moved to the end.
  ghost function Moved(nodes: seq<Node>, i: nat): (r: seq<Node>)
    requires i < |nodes|
    ensures |r| == |nodes|
    ensures forall j :: 0 <= j < |r| ==> r[j] == if j < i then nodes[j] else if j < |r| - 1 then nodes[j + 1] else nodes[i]
  {
    nodes[..i] + nodes[i + 1..] + [nodes[i]]
  }

  // Moving a node to the end of the list is touching its key.
  lemma MovedIsTouched(table: map<Key, Node>, nodes: seq<Node>, i: nat)
    requires i < |nodes| && NoDuplicates(nodes) && Indexes(table, nodes)
    ensures KeysOf(Moved(nodes, i)) == Touched(Lru, KeysOf(nodes), nodes[i].key)
    ensures forall n :: n in Moved(nodes, i) <==> n in nodes
    ensures Indexes(table, Moved(nodes, i))
  {
    KeysDistinct(table, nodes);
    var q := KeysOf(nodes);
    WithoutAt(q, i);
    assert KeysOf(Moved(nodes, i)) == q[..i] + q[i + 1..] + [q[i]];
    assert nodes == nodes[..i] + [nodes[i]] + nodes[i + 1..];
  }

  lemma AppendedIsTouched(nodes: seq<Node>, n: Node)
    requires forall m :: m in nodes ==> m.key != n.key
    ensures KeysOf(nodes + [n]) == Touched(Lru, KeysOf(nodes), n.key)
  {
    WithoutAbsent(KeysOf(nodes), n.key);
  }

  lemma AppendedIsIndexed(table: map<Key, Node>, nodes: seq<Node>, n: Node)
    requires Indexes(table, nodes) && n.key !in table
    ensures Indexes(table[n.key := n], nodes + [n])
  {
  }

  // Neighbours point at each other, the two ends point at nothing, and no node occurs twice.
  ghost predicate Linked(nodes: seq<Node>)
    reads nodes
  {
    && NoDuplicates(nodes)
    && (forall i {:trigger nodes[i].prev} :: 0 <= i < |nodes| ==> nodes[i].prev == if i == 0 then null else nodes[i - 1])
    && (forall i {:trigger nodes[i].next} :: 0 <= i < |nodes| ==> nodes[i].next == if i == |nodes| - 1 then null else nodes[i + 1])
  }
}
