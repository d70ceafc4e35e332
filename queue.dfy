/**
 * `Queue<T>` of the library: a first-in first-out adapter that holds one
 * `List` and forwards every operation to it. Elements enter at the back of
 * the list and leave from its front.
 */
module Queues {
  import opened LinkedLists

  class Queue<T(==)> {
    var container: List<T>

    /** The list and the cells it owns. */
    ghost var Repr: set<object>

    /** The queue is its list, valid and owned by it alone. */
    ghost predicate Valid()
      reads this, Repr
    {
      && container in Repr && container.Repr <= Repr
      && Repr == {container} + container.Repr
      && this !in Repr
      && container.Valid()
    }

    /** The elements, from the oldest (the front) to the newest (the back). */
    ghost function Contents(): seq<T>
      reads this, container
    {
      container.Contents
    }

    /** An empty queue. */
    constructor ()
      ensures Valid() && fresh(Repr) && Contents() == []
    {
      container := new List();
      Repr := {container};
    }

    /** A queue holding a copy of the elements of `list`, the oldest first. */
    constructor FromContainer(list: List<T>)
      requires list.Valid()
      ensures Valid() && fresh(Repr) && Contents() == list.Contents
    {
      var c := new List();
      c.AppendCopy(list);
      container := c;
      Repr := {c} + c.Repr;
    }

    /** A queue holding a copy of the elements of `other`. */
    constructor Copy(other: Queue<T>)
      requires other.Valid()
      ensures Valid() && fresh(Repr) && Contents() == other.Contents()
    {
      var c := new List();
      c.AppendCopy(other.container);
      container := c;
      Repr := {c} + c.Repr;
    }

    /** Whether the queue has no elements. */
    function Empty(): (b: bool)
      reads this, Repr
      requires Valid()
      ensures b <==> Contents() == []
    {
      container.Empty()
    }

    /** The number of elements. */
    function Len(): (n: nat)
      reads this, Repr
      requires Valid()
      ensures n == |Contents()|
    {
      container.Len()
    }

    /** The oldest element, the next to leave; undefined in the library on an empty queue. */
    function Front(): (v: T)
      reads this, Repr
      requires Valid() && Contents() != []
      ensures v == Contents()[0]
    {
      container.Front()
    }

    /** The newest element; undefined in the library on an empty queue. */
    function Back(): (v: T)
      reads this, Repr
      requires Valid() && Contents() != []
      ensures v == Contents()[|Contents()| - 1]
    {
      container.Back()
    }

    /** Adds `v` behind every element already queued. */
    method Push(v: T)
      requires Valid()
      modifies this, Repr
      ensures Valid() && fresh(Repr - old(Repr)) && old(Repr) <= Repr
      ensures Contents() == old(Contents()) + [v]
    {
      container.PushBack(v);
      Repr := {container} + container.Repr;
    }

    /** Removes and returns the oldest element; undefined in the library on an empty queue. */
    method Pop() returns (v: T)
      requires Valid() && Contents() != []
      modifies this, Repr
      ensures Valid() && Repr <= old(Repr)
      ensures v == old(Contents())[0] && Contents() == old(Contents())[1..]
    {
      v := container.PopFront();
      Repr := {container} + container.Repr;
    }

    /**
     * Moves every element of `other` behind the elements of this queue, in
     * their order, leaving `other` empty. A queue appended to itself is
     * left empty, as its list is.
     */
    method Append(other: Queue<T>)
      requires Valid() && other.Valid() && (this == other || ({this} + Repr) !! ({other} + other.Repr))
      modifies this, Repr, other, other.Repr
      ensures Valid() && other.Valid()
      ensures this != other ==> ({this} + Repr) !! ({other} + other.Repr)
      ensures this != other ==> Contents() == old(Contents()) + old(other.Contents()) && other.Contents() == []
      ensures this == other ==> Contents() == []
    {
      container.Append(other.container);
      Repr := {container} + container.Repr;
      other.Repr := {other.container} + other.container.Repr;
    }

    /** Reverses the order of the elements: the newest becomes the oldest. */
    method Reverse()
      requires Valid()
      modifies Repr
      ensures Valid() && Repr == old(Repr)
      ensures Contents() == Sequences.Reverse(old(Contents()))
    {
      container.Reverse();
    }

    /** Removes every element. */
    method Clear()
      requires Valid()
      modifies this, Repr
      ensures Valid() && Contents() == [] && Repr <= old(Repr)
    {
      container.Clear();
      Repr := {container};
    }

    /** Exchanges the elements of this queue and `other`; nothing happens when they are the same queue. */
    method Swap(other: Queue<T>)
      requires Valid() && other.Valid() && (this == other || ({this} + Repr) !! ({other} + other.Repr))
      modifies this, Repr, other, other.Repr
      ensures Valid() && other.Valid()
      ensures this == other ==> Contents() == old(Contents())
      ensures this != other ==> Contents() == old(other.Contents()) && other.Contents() == old(Contents())
      ensures this != other ==> ({this} + Repr) !! ({other} + other.Repr)
    {
      if this == other {
        container.Swap(container);
        return;
      }
      container.Swap(other.container);
      Repr := {container} + container.Repr;
      other.Repr := {other.container} + other.container.Repr;
    }

    /** A new list holding a copy of the elements, the oldest first. */
    method IntoContainer() returns (r: List<T>)
      requires Valid()
      ensures fresh(r) && fresh(r.Repr) && r.Valid() && r.Contents == Contents()
    {
      r := new List();
      r.AppendCopy(container);
    }

    /** A new queue holding the elements of this queue followed by those of `other`. */
    method Concat(other: Queue<T>) returns (r: Queue<T>)
      requires Valid() && other.Valid()
      ensures fresh(r) && fresh(r.Repr) && r.Valid()
      ensures r.Contents() == Contents() + other.Contents()
    {
      var both := container.Concat(other.container);
      r := new Queue.FromContainer(both);
    }

    /** Queues a copy of every element of `other` behind the elements of this queue. */
    method AppendCopy(other: Queue<T>)
      requires Valid() && other.Valid() && ({this} + Repr) !! ({other} + other.Repr)
      modifies this, Repr
      ensures Valid() && fresh(Repr - old(Repr)) && old(Repr) <= Repr
      ensures other.Valid() && ({this} + Repr) !! ({other} + other.Repr)
      ensures Contents() == old(Contents()) + other.Contents()
    {
      container.AppendCopy(other.container);
      Repr := {container} + container.Repr;
    }

    /** Whether the two queues hold the same elements in the same order. */
    method Equals(other: Queue<T>) returns (b: bool)
      requires Valid() && other.Valid()
      ensures b <==> Contents() == other.Contents()
    {
      b := container.Equals(other.container);
    }
  }

  /**
   * First in, first out: after 1 and then 2 are pushed onto an empty queue,
   * the first pop returns 1 and the second returns 2, leaving it empty.
   */
  method FirstInFirstOut() returns (first: int, second: int, left: nat)
    ensures first == 1 && second == 2 && left == 0
  {
    var q := new Queue<int>();
    q.Push(1);
    q.Push(2);
    first := q.Pop();
    second := q.Pop();
    left := q.Len();
  }
}
