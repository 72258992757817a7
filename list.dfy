/**
 * list.c: a singly linked list of heap nodes with a cursor made of the
 * current and previous node.  The list keeps a ghost spine, the sequence of
 * its nodes from the head, and its contents are the nodes' data in that order.
 */
module LinkedList {
  class Node<T> {
    var data: T
    var next: Node?<T>

    /** A node the allocator hands out, `next` NULL. */
    constructor (d: T)
      ensures data == d && next == null
    {
      data := d;
      next := null;
    }
  }

  /** The iterator struct, passed by value to getIterator's caller and by pointer to getNext and removeItem. */
  datatype Iterator<T> = Iterator(cur: Node?<T>, prev: Node?<T>)

  /** The data of a spine, in order. */
  ghost function Values<T>(ns: seq<Node<T>>): (s: seq<T>)
    reads set i | 0 <= i < |ns| :: ns[i]
    ensures |s| == |ns| && forall i :: 0 <= i < |ns| ==> s[i] == ns[i].data
  {
    if |ns| == 0 then [] else Values(ns[..|ns| - 1]) + [ns[|ns| - 1].data]
  }

  /**
   * The positions a loop that calls getNext until it reports NULL visits from position k of
   * a list of n nodes: every later position, one by one.
   */
  function Visits(k: nat, n: nat): (v: seq<nat>)
    decreases n - k
  {
    if k + 1 < n then [k + 1] + Visits(k + 1, n) else []
  }

  /** From a fresh iterator the loop sees positions 1 to n - 1: every node but the head. */
  lemma {:induction false} VisitsFrom(k: nat, n: nat)
    ensures |Visits(k, n)| == if k < n then n - 1 - k else 0
    ensures forall i :: 0 <= i < |Visits(k, n)| ==> Visits(k, n)[i] == k + 1 + i
    decreases n - k
  {
    if k + 1 < n {
      VisitsFrom(k + 1, n);
    }
  }

  lemma FreshLoop(n: nat)
    requires n >= 1
    ensures |Visits(0, n)| == n - 1 && 0 !in Visits(0, n)
    ensures forall p :: 1 <= p < n ==> p in Visits(0, n)
  {
    VisitsFrom(0, n);
    forall p | 1 <= p < n
      ensures p in Visits(0, n)
    {
      assert Visits(0, n)[p - 1] == p;
    }
  }

  /** A slice grown by one element. */
  lemma SliceNext<T>(s: seq<T>, i: nat, j: nat)
    requires i <= j < |s|
    ensures s[i..j + 1] == s[i..j] + [s[j]]
  {}

  /** One more position returned: it is the first of those still to come. */
  lemma SeenNext(seen: seq<nat>, k: nat, n: nat)
    requires k + 1 < n
    ensures (seen + [k + 1]) + Visits(k + 1, n) == seen + Visits(k, n)
  {
    assert Visits(k, n) == [k + 1] + Visits(k + 1, n);
  }

  class List<T> {
    var head: Node?<T>
    /** The nodes from the head to the tail. */
    ghost var nodes: seq<Node<T>>

    /** The nodes are distinct, each links to the next, the tail to NULL, and head is the first or NULL. */
    ghost predicate Valid()
      reads this, set i | 0 <= i < |nodes| :: nodes[i]
    {
      && (if |nodes| == 0 then head == null else head == nodes[0])
      && (forall i, j :: 0 <= i < j < |nodes| ==> nodes[i] != nodes[j])
      && (forall i {:trigger nodes[i].next} :: 0 <= i < |nodes| ==> nodes[i].next == if i + 1 < |nodes| then nodes[i + 1] else null)
    }

    lemma LinkAt(j: nat)
      requires Valid() && j < |nodes|
      ensures nodes[j].next == if j + 1 < |nodes| then nodes[j + 1] else null
    {}

    ghost function Contents(): seq<T>
      reads this, set i | 0 <= i < |nodes| :: nodes[i]
    {
      Values(nodes)
    }

    /** The iterator stands on node k, its prev either NULL or node k - 1. */
    ghost predicate At(it: Iterator<T>, k: nat)
      reads this
    {
      k < |nodes| && it.cur == nodes[k] && (it.prev == null || (1 <= k && it.prev == nodes[k - 1]))
    }

    /** An empty list, head NULL. */
    constructor ()
      ensures Valid() && Contents() == [] && nodes == []
    {
      head := null;
      nodes := [];
    }

    /** getIterator: cur is the head, prev NULL. */
    method GetIterator() returns (it: Iterator<T>)
      requires Valid()
      ensures it.prev == null
      ensures |nodes| == 0 ==> it.cur == null
      ensures |nodes| > 0 ==> At(it, 0)
    {
      it := Iterator(head, null);
    }

    /**
     * getNext: from node k, move to node k + 1 and return it, prev becoming
     * node k; at the tail, or on an empty list, NULL and the iterator unchanged.
     */
    method GetNext(it: Iterator<T>, ghost k: nat) returns (it': Iterator<T>, r: Node?<T>)
      requires Valid() && (At(it, k) || (|nodes| == 0 && it.cur == null))
      ensures k + 1 < |nodes| ==> it' == Iterator(nodes[k + 1], nodes[k]) && r == nodes[k + 1] && At(it', k + 1)
      ensures k + 1 < |nodes| ==> r.data == Contents()[k + 1]
      ensures k + 1 >= |nodes| ==> it' == it && r == null
    {
      if it.cur == null {
        return it, null;
      }
      assert it.cur == nodes[k];
      assert it.cur.next == if k + 1 < |nodes| then nodes[k + 1] else null;
      if it.cur.next != null {
        it' := Iterator(it.cur.next, it.cur);
        return it', it'.cur;
      }
      return it, null;
    }

    /** pushItem: a new node holding d linked after the tail, found by running the iterator to its end. */
    method PushItem(d: T)
      requires Valid()
      modifies this, if |nodes| == 0 then {} else {nodes[|nodes| - 1]}
      ensures Valid()
      ensures Contents() == old(Contents()) + [d]
      ensures nodes[..|nodes| - 1] == old(nodes) && fresh(nodes[|nodes| - 1])
    {
      var n := new Node(d);
      if head != null {
        var it := RunToTail();
        LinkAfter(it, n);
      } else {
        head := n;
        nodes := [n];
      }
    }

    /** The end of pushItem: the tail's `next` set to the new node. */
    method LinkAfter(it: Iterator<T>, n: Node<T>)
      requires Valid() && |nodes| > 0 && At(it, |nodes| - 1)
      requires n.next == null && n !in nodes
      modifies this, it.cur
      ensures Valid()
      ensures nodes == old(nodes) + [n]
      ensures Contents() == old(Contents()) + [n.data]
    {
      ghost var spine := nodes;
      forall j | 0 <= j < |spine|
        ensures spine[j].next == if j + 1 < |spine| then spine[j + 1] else null
      {
        LinkAt(j);
      }
      it.cur.next := n;
      nodes := nodes + [n];
      forall i | 0 <= i < |spine| - 1
        ensures nodes[i].next == nodes[i + 1]
      {
        assert spine[i] != spine[|spine| - 1];
      }
      forall i | 0 <= i < |spine|
        ensures nodes[i].data == old(nodes[i].data)
      {
        assert nodes[i] == spine[i];
      }
    }

    /** pushItem's empty loop over getNext: from a fresh iterator to the tail. */
    method RunToTail() returns (it: Iterator<T>)
      requires Valid() && |nodes| > 0
      ensures At(it, |nodes| - 1)
    {
      it := GetIterator();
      ghost var k := 0;
      var r := head;
      while r != null
        invariant At(it, k)
        invariant r == null ==> k + 1 == |nodes|
        decreases |nodes| - k, r != null
      {
        it, r := GetNext(it, k);
        if r != null {
          k := k + 1;
        }
      }
    }

    /**
     * removeItem with prev set: node k unlinked and the rest kept in order;
     * the iterator then stands on node k - 1 with prev NULL, so the next
     * getNext returns the removed node's successor.
     */
    method RemoveAfter(it: Iterator<T>, ghost k: nat) returns (it': Iterator<T>)
      requires Valid() && At(it, k) && it.prev != null
      modifies this, nodes[k - 1]
      ensures Valid()
      ensures nodes == old(nodes[..k] + nodes[k + 1..])
      ensures Contents() == old(Contents()[..k] + Contents()[k + 1..])
      ensures it' == Iterator(nodes[k - 1], null) && At(it', k - 1)
    {
      ghost var spine := nodes;
      LinkAt(k);
      it.prev.next := it.cur.next;
      nodes := nodes[..k] + nodes[k + 1..];
      assert forall i :: 0 <= i < |nodes| ==> nodes[i] == if i < k then spine[i] else spine[i + 1];
      forall i | 0 <= i < |nodes|
        ensures nodes[i].next == if i + 1 < |nodes| then nodes[i + 1] else null
      {
        if i < k - 1 {
          assert spine[i] != spine[k - 1];
        } else if i >= k {
          assert spine[i + 1] != spine[k - 1];
        }
      }
      assert Valid();
      it' := Iterator(it.prev, null);
    }

    /**
     * removeItem with prev NULL: head becomes the successor of cur.  From
     * node k every node up to and including k leaves the list, so only k = 0,
     * a fresh iterator, removes exactly one item; the iterator is left on the
     * removed node.
     */
    method RemoveHead(it: Iterator<T>, ghost k: nat) returns (it': Iterator<T>)
      requires Valid() && At(it, k) && it.prev == null
      modifies this
      ensures Valid()
      ensures nodes == old(nodes[k + 1..])
      ensures Contents() == old(Contents()[k + 1..])
      ensures it' == it && it.cur !in nodes
    {
      ghost var rest := nodes[k + 1..];
      LinkAt(k);
      forall i | 0 <= i < |rest|
        ensures rest[i].next == if i + 1 < |rest| then rest[i + 1] else null
        ensures rest[i] != it.cur
        ensures rest[i] as object != this
      {
        LinkAt(i + k + 1);
      }
      head := it.cur.next;
      nodes := rest;
      it' := it;
    }

    /** removeItem: the two cases above, chosen by prev. */
    method RemoveItem(it: Iterator<T>, ghost k: nat) returns (it': Iterator<T>)
      requires Valid() && At(it, k)
      modifies this, if 1 <= k < |nodes| then {nodes[k - 1]} else {}
      ensures Valid()
      ensures it.prev != null ==> Contents() == old(Contents()[..k] + Contents()[k + 1..]) && At(it', k - 1) && it'.prev == null
      ensures it.prev == null ==> Contents() == old(Contents()[k + 1..]) && it' == it
    {
      if it.prev != null {
        it' := RemoveAfter(it, k);
      } else {
        it' := RemoveHead(it, k);
      }
    }

    /**
     * deleteList: the head is freed, then every node getNext reaches, and head
     * becomes NULL.  `freed` is the sequence of nodes handed to free, in order.
     */
    method DeleteList() returns (ghost freed: seq<Node<T>>)
      requires Valid()
      modifies this
      ensures freed == old(nodes)
      ensures Valid() && Contents() == [] && head == null
    {
      ghost var spine := nodes;
      var it := GetIterator();
      freed := if it.cur == null then [] else [it.cur];
      ghost var k := 0;
      var r;
      it, r := GetNext(it, k);
      while r != null
        invariant nodes == spine && Valid()
        invariant |nodes| == 0 ==> r == null && freed == []
        invariant |nodes| > 0 ==> k < |nodes| && freed == nodes[..k + 1]
        invariant r != null ==> k + 1 < |nodes| && At(it, k + 1)
        invariant r == null && |nodes| > 0 ==> k + 1 >= |nodes|
        decreases |nodes| - k
      {
        k := k + 1;
        freed := freed + [it.cur];
        it, r := GetNext(it, k);
      }
      assert |nodes| > 0 ==> nodes[..k + 1] == nodes;
      head := null;
      nodes := [];
    }

    /**
     * The loop `iter = getIterator(&l); while ((cur = getNext(&iter)) != NULL) { ... }`
     * the main loop runs over its lists: `seen` are the positions returned, in
     * order, and `visited` their data.  The head is never returned.
     */
    method Traverse() returns (visited: seq<T>, ghost seen: seq<nat>)
      requires Valid()
      ensures seen == Visits(0, |nodes|)
      ensures visited == if |nodes| == 0 then [] else Contents()[1..]
      ensures 0 !in seen && forall p :: 1 <= p < |nodes| ==> p in seen
    {
      ghost var vals := Contents();
      var it := GetIterator();
      ghost var k := 0;
      visited, seen := [], [];
      var r;
      it, r := GetNext(it, k);
      while r != null
        invariant |nodes| == 0 ==> r == null && k == 0 && visited == []
        invariant |nodes| > 0 ==> k < |nodes| && visited == vals[1..k + 1]
        invariant r != null ==> k + 1 < |nodes| && At(it, k + 1) && r.data == vals[k + 1]
        invariant r == null ==> k + 1 >= |nodes|
        invariant seen + Visits(k, |nodes|) == Visits(0, |nodes|)
        decreases |nodes| - k
      {
        SeenNext(seen, k, |nodes|);
        ghost var next: nat := k + 1;
        seen := seen + [next];
        SliceNext(vals, 1, k + 1);
        visited := visited + [r.data];
        k := k + 1;
        it, r := GetNext(it, k);
      }
      assert Visits(k, |nodes|) == [];
      assert seen == Visits(0, |nodes|);
      if |nodes| > 0 {
        FreshLoop(|nodes|);
        assert vals[1..k + 1] == vals[1..];
      }
    }
  }
}
