/** The doubly-linked list under both caches of libxa/xenaccess/xa_cache.c: append at the
    tail, unlink of the least recently used node, update of a node in place.  The C code
    writes this out twice, once for each cache. */
module LruList {
  import opened Common

  /** A cached item and the time it was last used. */
  datatype Stamped<T> = Stamped(item: T, lastUsed: int)

  class Node<T> {
    var item: T
    var lastUsed: int
    var next: Node?<T>
    var prev: Node?<T>

    constructor (item: T, now: int)
      ensures this.item == item && lastUsed == now && next == null && prev == null
    {
      this.item, lastUsed, next, prev := item, now, null, null;
    }
  }

  /** The index of the first among the least recently used: what eviction removes. */
  function Oldest<T>(s: seq<Stamped<T>>): (k: nat)
    requires s != []
    ensures k < |s|
    ensures forall i :: 0 <= i < |s| ==> s[k].lastUsed <= s[i].lastUsed
    ensures forall i :: 0 <= i < k ==> s[k].lastUsed < s[i].lastUsed
  {
    if |s| == 1 then 0
    else
      var k := Oldest(s[..|s| - 1]);
      assert forall i :: 0 <= i < |s| - 1 ==> s[..|s| - 1][i] == s[i];
      if s[|s| - 1].lastUsed < s[k].lastUsed then |s| - 1 else k
  }

  /** The least recently used entry makes room when the capacity is reached. */
  function EvictIfFull<T>(s: seq<Stamped<T>>, capacity: nat): seq<Stamped<T>>
    requires capacity > 0
  {
    if |s| >= capacity then Without(s, Oldest(s)) else s
  }

  class LruList<T> {
    var head: Node?<T>
    var tail: Node?<T>
    var size: nat
    ghost var nodes: seq<Node<T>>
    ghost var repr: set<Node<T>>
    ghost var contents: seq<Stamped<T>>

    /** Links forward and backward agree with the node sequence, whose length is `size`. */
    ghost predicate Valid()
      reads this, repr
    {
      && (forall i :: 0 <= i < |nodes| ==> nodes[i] in repr)
      && size == |nodes| == |contents|
      && (nodes == [] ==> head == null && tail == null)
      && (nodes != [] ==>
            && head == nodes[0] && head.prev == null
            && tail == nodes[|nodes| - 1] && tail.next == null)
      && (forall i {:trigger nodes[i].next} :: 0 <= i < |nodes| - 1 ==> nodes[i].next == nodes[i + 1])
      && (forall i {:trigger nodes[i].prev} :: 1 <= i < |nodes| ==> nodes[i].prev == nodes[i - 1])
      && (forall i, j :: 0 <= i < j < |nodes| ==> nodes[i] != nodes[j])
      && (forall i :: 0 <= i < |nodes| ==> contents[i] == Stamped(nodes[i].item, nodes[i].lastUsed))
    }

    constructor ()
      ensures Valid() && contents == [] && repr == {}
    {
      head, tail, size, nodes, repr, contents := null, null, 0, [], {}, [];
    }

    /** Assigns the item and the time of a node of the list. */
    method Assign(n: Node<T>, ghost k: nat, item: T, now: int)
      requires Valid() && k < |nodes| && nodes[k] == n
      modifies n, this`contents
      ensures Valid()
      ensures contents == old(contents)[k := Stamped(item, now)]
    {
      n.item, n.lastUsed := item, now;
      contents := contents[k := Stamped(item, now)];
    }

    /** Adds a new node at the tail. */
    method Append(item: T, now: int)
      requires Valid()
      modifies this, repr
      ensures Valid() && fresh(repr - old(repr))
      ensures contents == old(contents) + [Stamped(item, now)]
    {
      var n := new Node(item, now);
      LinkLast(n);
    }

    method LinkLast(n: Node<T>)
      requires Valid() && n !in repr
      modifies this, repr`next, n`next, n`prev
      ensures Valid() && repr == old(repr) + {n}
      ensures nodes == old(nodes) + [n] && contents == old(contents) + [Stamped(n.item, n.lastUsed)]
    {
      if tail != null {
        tail.next := n;
      }
      n.prev := tail;
      tail := n;
      if head == null {
        head := n;
      }
      n.next := null;
      size := size + 1;
      nodes, repr, contents := nodes + [n], repr + {n}, contents + [Stamped(n.item, n.lastUsed)];
    }

    /** Scans from the head for the first node that satisfies `p`. */
    method Find(p: Stamped<T> -> bool) returns (n: Node?<T>, ghost k: nat)
      requires Valid()
      ensures k == First(contents, p)
      ensures n == if k < |nodes| then nodes[k] else null
    {
      n, k := head, 0;
      while n != null && !p(Stamped(n.item, n.lastUsed))
        invariant k <= |nodes| && n == if k < |nodes| then nodes[k] else null
        invariant forall i :: 0 <= i < k ==> !p(contents[i])
        decreases |nodes| - k
      {
        n, k := n.next, k + 1;
      }
      FirstIs(contents, p, k);
    }

    /** Scans for the first node with the least `lastUsed`. */
    method FindOldest() returns (n: Node<T>, ghost k: nat)
      requires Valid() && nodes != []
      ensures k < |nodes| && n == nodes[k] && k == Oldest(contents)
    {
      n, k := head, 0;
      var current := head;
      ghost var i := 0;
      while current != null
        invariant 0 <= i <= |nodes|
        invariant current == if i < |nodes| then nodes[i] else null
        invariant k < |nodes| && n == nodes[k] && (k < i || i == k == 0)
        invariant forall j :: 0 <= j < i ==> n.lastUsed <= nodes[j].lastUsed
        invariant forall j :: 0 <= j < k ==> n.lastUsed < nodes[j].lastUsed
        decreases |nodes| - i
      {
        if current.lastUsed < n.lastUsed {
          n, k := current, i;
        }
        current := current.next;
        i := i + 1;
      }
      var s := contents;
      var o := Oldest(s);
      assert s[o].lastUsed <= s[k].lastUsed && s[k].lastUsed <= s[o].lastUsed;
    }

    // The four ways to take a node out of the links.

    method DropOnly(n: Node<T>)
      requires Valid() && nodes == [n]
      modifies this
      ensures Valid() && repr == old(repr) && nodes == [] && contents == []
    {
      head := null;
      tail := null;
      size, nodes, contents := size - 1, [], [];
    }

    method DropLast(n: Node<T>)
      requires Valid() && |nodes| > 1 && n == nodes[|nodes| - 1]
      modifies this, repr`next
      ensures Valid() && repr == old(repr)
      ensures nodes == Without(old(nodes), |old(nodes)| - 1) && contents == Without(old(contents), |old(nodes)| - 1)
    {
      assert n.prev == nodes[|nodes| - 2];
      tail := n.prev;
      n.prev.next := null;
      size, nodes, contents := size - 1, Without(nodes, |nodes| - 1), Without(contents, |nodes| - 1);
    }

    method DropFirst(n: Node<T>)
      requires Valid() && |nodes| > 1 && n == nodes[0]
      modifies this, repr`prev
      ensures Valid() && repr == old(repr)
      ensures nodes == Without(old(nodes), 0) && contents == Without(old(contents), 0)
    {
      assert n.next == nodes[1];
      head := n.next;
      n.next.prev := null;
      size, nodes, contents := size - 1, Without(nodes, 0), Without(contents, 0);
    }

    method DropMiddle(n: Node<T>, ghost k: nat)
      requires Valid() && 0 < k < |nodes| - 1 && n == nodes[k]
      modifies this, repr`next, repr`prev
      ensures Valid() && repr == old(repr)
      ensures nodes == Without(old(nodes), k) && contents == Without(old(contents), k)
    {
      assert n.next == nodes[k + 1] && n.prev == nodes[k - 1];
      n.prev.next := n.next;
      n.next.prev := n.prev;
      size := size - 1;
      nodes, contents := Without(nodes, k), Without(contents, k);
    }

    method Detach(n: Node<T>, ghost k: nat)
      requires Valid() && k < |nodes| && nodes[k] == n
      modifies this, repr`next, repr`prev
      ensures Valid() && repr == old(repr)
      ensures nodes == Without(old(nodes), k) && contents == Without(old(contents), k)
    {
      if n.next == null && n.prev == null {
        DropOnly(n);
      } else if n.next == null {
        DropLast(n);
      } else if n.prev == null {
        DropFirst(n);
      } else {
        DropMiddle(n, k);
      }
    }

    method Unlink(n: Node<T>, ghost k: nat)
      requires Valid() && k < |nodes| && nodes[k] == n
      modifies this, repr`next, repr`prev
      ensures Valid() && repr == old(repr)
      ensures nodes == Without(old(nodes), k) && contents == Without(old(contents), k)
    {
      Detach(n, k);
      assert forall i :: 0 <= i < |nodes| ==> nodes[i] != n;
      n.next := null;
      n.prev := null;
    }

    /** Removes the least recently used entry. */
    method RemoveOldest()
      requires Valid() && nodes != []
      modifies this, repr
      ensures Valid() && repr == old(repr)
      ensures contents == Without(old(contents), Oldest(old(contents)))
    {
      var n, k := FindOldest();
      Unlink(n, k);
    }

    /** Adds an entry at the tail, removing the least recently used one first when full. */
    method Insert(item: T, capacity: nat, now: int)
      requires Valid() && capacity > 0
      modifies this, repr
      ensures Valid() && fresh(repr - old(repr))
      ensures contents == EvictIfFull(old(contents), capacity) + [Stamped(item, now)]
    {
      if size >= capacity {
        RemoveOldest();
      }
      Append(item, now);
    }
  }
}
