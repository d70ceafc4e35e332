/**
 * `Stack<T>` of the library: a last-in first-out adapter that holds one
 * `List` and forwards every operation to it. The back of the list is the
 * top of the stack: elements are pushed there and popped from there.
 */
module Stacks {
  import opened LinkedLists

  class Stack<T(==)> {
    var container: List<T>

    /** The list and the cells it owns. */
    ghost var Repr: set<object>

    /** The stack is its list, valid and owned by it alone. */
    ghost predicate Valid()
      reads this, Repr
    {
      && container in Repr && container.Repr <= Repr
      && Repr == {container} + container.Repr
      && this !in Repr
      && container.Valid()
    }

    /** The elements, from the bottom of the stack to its top. */
    ghost function Contents(): seq<T>
      reads this, container
    {
      container.Contents
    }

    /** An empty stack. */
    constructor ()
      ensures Valid() && fresh(Repr) && Contents() == []
    {
      container := new List();
      Repr := {container};
    }

    /** A stack holding a copy of the elements of `list`, whose last element is the top. */
    constructor FromContainer(list: List<T>)
      requires list.Valid()
      ensures Valid() && fresh(Repr) && Contents() == list.Contents
    {
      var c := new List();
      c.AppendCopy(list);
      container := c;
      Repr := {c} + c.Repr;
    }

    /** A stack holding a copy of the elements of `other`. */
    constructor Copy(other: Stack<T>)
      requires other.Valid()
      ensures Valid() && fresh(Repr) && Contents() == other.Contents()
    {
      var c := new List();
      c.AppendCopy(other.container);
      container := c;
      Repr := {c} + c.Repr;
    }

    /** Whether the stack has no elements. */
    function Empty(): (b: bool)
      reads this, Repr
      requires Valid()
      ensures b <==> Contents() == []
    {
      container.Empty()
    }

    /** The number of elements. */
    function Len(): (n: nat)
      reads this, Repr
      requires Valid()
      ensures n == |Contents()|
    {
      container.Len()
    }

    /** The top element, the last one pushed; undefined in the library on an empty stack. */
    function Top(): (v: T)
      reads this, Repr
      requires Valid() && Contents() != []
      ensures v == Contents()[|Contents()| - 1]
    {
      container.Back()
    }

    /** Pushes `v`, which becomes the top. */
    method Push(v: T)
      requires Valid()
      modifies this, Repr
      ensures Valid() && fresh(Repr - old(Repr)) && old(Repr) <= Repr
      ensures Contents() == old(Contents()) + [v]
    {
      container.PushBack(v);
      Repr := {container} + container.Repr;
    }

    /** Removes and returns the top element; undefined in the library on an empty stack. */
    method Pop() returns (v: T)
      requires Valid() && Contents() != []
      modifies this, Repr
      ensures Valid() && Repr <= old(Repr)
      ensures v == old(Contents())[|old(Contents())| - 1]
      ensures Contents() == old(Contents())[..|old(Contents())| - 1]
    {
      v := container.PopBack();
      Repr := {container} + container.Repr;
    }

    /**
     * Reverses `other` and then moves its elements onto this stack, leaving
     * it empty: the top of `other` ends up just above this stack's old top
     * and the bottom of `other` becomes the new top. A stack appended to
     * itself is reversed and then left empty, as its list is.
     */
    method Append(other: Stack<T>)
      requires Valid() && other.Valid() && (this == other || ({this} + Repr) !! ({other} + other.Repr))
      modifies this, Repr, other, other.Repr
      ensures Valid() && other.Valid()
      ensures this != other ==> ({this} + Repr) !! ({other} + other.Repr)
      ensures this != other ==> Contents() == old(Contents()) + Sequences.Reverse(old(other.Contents()))
      ensures other.Contents() == []
    {
      other.Reverse();
      container.Append(other.container);
      Repr := {container} + container.Repr;
      other.Repr := {other.container} + other.container.Repr;
    }

    /** Reverses the order of the elements: the bottom becomes the top. */
    method Reverse()
      requires Valid()
      modifies Repr
      ensures Valid() && Repr == old(Repr)
      ensures Contents() == Sequences.Reverse(old(Contents()))
    {
      container.Reverse();
    }

    /** Removes every element. */
    method Clear()
      requires Valid()
      modifies this, Repr
      ensures Valid() && Contents() == [] && Repr <= old(Repr)
    {
      container.Clear();
      Repr := {container};
    }

    /** Exchanges the elements of this stack and `other`; nothing happens when they are the same stack. */
    method Swap(other: Stack<T>)
      requires Valid() && other.Valid() && (this == other || ({this} + Repr) !! ({other} + other.Repr))
      modifies this, Repr, other, other.Repr
      ensures Valid() && other.Valid()
      ensures this == other ==> Contents() == old(Contents())
      ensures this != other ==> Contents() == old(other.Contents()) && other.Contents() == old(Contents())
      ensures this != other ==> ({this} + Repr) !! ({other} + other.Repr)
    {
      if this == other {
        container.Swap(container);
        return;
      }
      container.Swap(other.container);
      Repr := {container} + container.Repr;
      other.Repr := {other.container} + other.container.Repr;
    }

    /** A new list holding a copy of the elements, from the bottom to the top. */
    method IntoContainer() returns (r: List<T>)
      requires Valid()
      ensures fresh(r) && fresh(r.Repr) && r.Valid() && r.Contents == Contents()
    {
      r := new List();
      r.AppendCopy(container);
    }

    /** A new stack holding the elements of this stack with those of `other` on top, in their order. */
    method Concat(other: Stack<T>) returns (r: Stack<T>)
      requires Valid() && other.Valid()
      ensures fresh(r) && fresh(r.Repr) && r.Valid()
      ensures r.Contents() == Contents() + other.Contents()
    {
      var both := container.Concat(other.container);
      r := new Stack.FromContainer(both);
    }

    /** Pushes a copy of every element of `other`, from its bottom to its top, onto this stack. */
    method AppendCopy(other: Stack<T>)
      requires Valid() && other.Valid() && ({this} + Repr) !! ({other} + other.Repr)
      modifies this, Repr
      ensures Valid() && fresh(Repr - old(Repr)) && old(Repr) <= Repr
      ensures other.Valid() && ({this} + Repr) !! ({other} + other.Repr)
      ensures Contents() == old(Contents()) + other.Contents()
    {
      container.AppendCopy(other.container);
      Repr := {container} + container.Repr;
    }

    /** Whether the two stacks hold the same elements in the same order. */
    method Equals(other: Stack<T>) returns (b: bool)
      requires Valid() && other.Valid()
      ensures b <==> Contents() == other.Contents()
    {
      b := container.Equals(other.container);
    }
  }

  /**
   * Last in, first out: after 1, 2 and 3 are pushed onto an empty stack,
   * two pops return 3 and then 2, and 1 is left on top.
   */
  method LastInFirstOut() returns (first: int, second: int, top: int)
    ensures first == 3 && second == 2 && top == 1
  {
    var s := new Stack<int>();
    s.Push(1);
    s.Push(2);
    s.Push(3);
    first := s.Pop();
    second := s.Pop();
    top := s.Top();
  }
}
