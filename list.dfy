/**
 * The doubly-linked list `List<T>` of the library: a chain of `Node`s with
 * `head`, `tail` and a length. Its abstract value is the ghost field
 * `Contents`, the values of the chain from head to tail; the ghost field
 * `nodes` is the chain itself and `Repr` the set of objects the list owns.
 */
module LinkedLists {
  import opened ListNodes
  import opened Sequences

  /** The position `find` and `rfind` report when nothing matches. */
  const NO_POS: int := -1

  /** Outcome of the bounds-checked `at`: the value, or the out-of-range index. */
  datatype Result<T> = Ok(value: T) | OutOfRange(at: nat)

  class List<T(==)> {
    var head: Node?<T>
    var tail: Node?<T>
    var len: nat

    ghost var nodes: seq<Node<T>>
    ghost var Contents: seq<T>
    ghost var Repr: set<object>

    /**
     * The representation invariant: `nodes` is a chain of distinct cells owned
     * by this list, linked both ways, starting at `head` (whose `back` is null)
     * and ending at `tail` (whose `next` is null), both null exactly when the
     * list is empty; `len` counts the cells and `Contents` lists their values.
     */
    ghost predicate Valid()
      reads this, Repr
    {
      && this !in Repr
      && len == |nodes| == |Contents|
      && Distinct(nodes)
      && (forall i :: 0 <= i < |nodes| ==> nodes[i].value == Contents[i])
      && Chain(nodes, head, tail, Repr)
    }

    /** An empty list. */
    constructor ()
      ensures Valid() && Repr == {}
      ensures Contents == [] && nodes == []
    {
      head, tail, len := null, null, 0;
      nodes, Contents := [], [];
      Repr := {};
    }

    /** A new list holding a copy of every element of `other`, in new cells. */
    constructor Copy(other: List<T>)
      requires other.Valid()
      ensures Valid() && fresh(Repr) && Contents == other.Contents
      ensures other.Valid() && ({this} + Repr) !! ({other} + other.Repr)
    {
      head, tail, len := null, null, 0;
      nodes, Contents := [], [];
      Repr := {};
      new;
      AppendCopy(other);
    }

    /** Whether the list has no elements. */
    function Empty(): (b: bool)
      reads this, Repr
      requires Valid()
      ensures b <==> Contents == []
    {
      len == 0
    }

    /** The number of elements. */
    function Len(): (n: nat)
      reads this, Repr
      requires Valid()
      ensures n == |Contents|
    {
      len
    }

    /** The first element; undefined in the library on an empty list. */
    function Front(): (v: T)
      reads this, Repr
      requires Valid() && Contents != []
      ensures v == Contents[0]
    {
      head.value
    }

    /** The last element; undefined in the library on an empty list. */
    function Back(): (v: T)
      reads this, Repr
      requires Valid() && Contents != []
      ensures v == Contents[|Contents| - 1]
    {
      tail.value
    }

    /** Adds `v` in front of the first element. */
    method PushFront(v: T)
      requires Valid()
      modifies this, Repr
      ensures Valid() && fresh(Repr - old(Repr)) && old(Repr) <= Repr
      ensures Contents == [v] + old(Contents)
    {
      var node := new Node.WithLinks(v, null, head);
      if head != null {
        head.back := node;
      } else {
        tail := node;
      }
      head := node;
      len := len + 1;
      nodes, Contents := [node] + nodes, [v] + Contents;
      Repr := Repr + {node};
    }

    /** Adds `v` after the last element. */
    method PushBack(v: T)
      requires Valid()
      modifies this, Repr
      ensures Valid() && fresh(Repr - old(Repr)) && old(Repr) <= Repr
      ensures Contents == old(Contents) + [v]
    {
      var node := new Node.WithLinks(v, tail, null);
      if tail != null {
        tail.next := node;
      } else {
        head := node;
      }
      tail := node;
      len := len + 1;
      nodes, Contents := nodes + [node], Contents + [v];
      Repr := Repr + {node};
    }

    /** Removes the first element and returns it; undefined in the library on an empty list. */
    method PopFront() returns (v: T)
      requires Valid() && Contents != []
      modifies this, Repr
      ensures Valid() && Repr <= old(Repr)
      ensures v == old(Contents)[0] && Contents == old(Contents)[1..]
    {
      var node := head;
      assert |nodes| > 1 ==> node.next == nodes[1] && nodes[1] in Repr && nodes[1] != nodes[0];
      v := node.value;
      len := len - 1;
      head := node.next;
      if head == null {
        tail := null;
      }
      node.Unlink();
      nodes, Contents := nodes[1..], Contents[1..];
      Repr := Repr - {node};
    }

    /** Removes the last element and returns it; undefined in the library on an empty list. */
    method PopBack() returns (v: T)
      requires Valid() && Contents != []
      modifies this, Repr
      ensures Valid() && Repr <= old(Repr)
      ensures v == old(Contents)[|old(Contents)| - 1] && Contents == old(Contents)[..|old(Contents)| - 1]
    {
      var node := tail;
      ghost var n := |nodes|;
      assert n > 1 ==> node.back == nodes[n - 2] && nodes[n - 2] in Repr && nodes[n - 2] != nodes[n - 1];
      v := node.value;
      len := len - 1;
      tail := node.back;
      if tail == null {
        head := null;
      }
      node.Unlink();
      nodes, Contents := nodes[..|nodes| - 1], Contents[..|Contents| - 1];
      Repr := Repr - {node};
    }

    /**
     * The cell at position `at`: the ends directly, otherwise a walk from the
     * head when `at` lies in the first half and from the tail when it does not.
     */
    method AtNode(at: nat) returns (node: Node<T>)
      requires Valid() && at < |Contents|
      ensures node == nodes[at] && node.value == Contents[at]
    {
      if at == 0 {
        return head;
      }
      if at == len - 1 {
        return tail;
      }
      if at <= len / 2 {
        node := head.Advance(at, nodes, 0);
      } else {
        node := tail.Retreat(len - at - 1, nodes, len - 1);
      }
    }

    /** Bounds-checked access: the element at `at`, or an out-of-range failure. */
    method At(at: nat) returns (r: Result<T>)
      requires Valid()
      ensures at < |Contents| ==> r == Ok(Contents[at])
      ensures at >= |Contents| ==> r == OutOfRange(at)
    {
      if at >= len {
        return OutOfRange(at);
      }
      var node := AtNode(at);
      return Ok(node.value);
    }

    /**
     * Inserts `v` so that it ends up at position `at`, in front of the element
     * that was there; at position 0 this is `PushFront`, and at or beyond the
     * length it is `PushBack`.
     */
    method InsertBackward(v: T, at: nat)
      requires Valid()
      modifies this, Repr
      ensures Valid() && fresh(Repr - old(Repr)) && old(Repr) <= Repr
      ensures at < |old(Contents)| ==> Contents == old(Contents)[..at] + [v] + old(Contents)[at..]
      ensures at >= |old(Contents)| ==> Contents == old(Contents) + [v]
    {
      Insert(v, at, true);
    }

    /**
     * Inserts `v` right after the element at position `at`; at or beyond the
     * last position it is `PushBack`.
     */
    method InsertForward(v: T, at: nat)
      requires Valid()
      modifies this, Repr
      ensures Valid() && fresh(Repr - old(Repr)) && old(Repr) <= Repr
      ensures at < |old(Contents)| ==> Contents == old(Contents)[..at + 1] + [v] + old(Contents)[at + 1..]
      ensures at >= |old(Contents)| ==> Contents == old(Contents) + [v]
    {
      Insert(v, at, false);
    }

    /**
     * The shared insertion: a new cell for `v` is linked before
     * (`backwarded`) or after the cell at `at`, with the ends handled by the
     * push operations. The new element lands at position `InsertPosition`.
     */
    method Insert(v: T, at: nat, backwarded: bool)
      requires Valid()
      modifies this, Repr
      ensures Valid() && fresh(Repr - old(Repr)) && old(Repr) <= Repr
      ensures var k := InsertPosition(at, |old(Contents)|, backwarded);
        Contents == old(Contents)[..k] + [v] + old(Contents)[k..]
    {
      if at == 0 && backwarded {
        PushFront(v);
        return;
      }
      if at >= len {
        PushBack(v);
        assert old(Contents)[len - 1..] == [];
        return;
      }
      if at == len - 1 && !backwarded {
        PushBack(v);
        return;
      }
      if backwarded {
        LinkBefore(v, at);
      } else {
        LinkAfter(v, at);
      }
    }

    /** The interior case of a backward insertion: a new cell linked before the cell at `at`. */
    method LinkBefore(v: T, at: nat)
      requires Valid() && 0 < at < |Contents|
      modifies this, Repr
      ensures Valid() && fresh(Repr - old(Repr)) && old(Repr) <= Repr
      ensures Contents == old(Contents)[..at] + [v] + old(Contents)[at..]
    {
      var node := AtNode(at);
      var cell := new Node(v);
      ghost var before, vals := nodes, Contents;
      assert node.back == before[at - 1] && before[at - 1] in Repr && before[at - 1] != node;
      node.LinkBack(cell);
      len := len + 1;
      Repr := Repr + {cell};
      nodes, Contents := before[..at] + [cell] + before[at..], vals[..at] + [v] + vals[at..];
      SplicedValid(before, vals, at, cell, v);
    }

    /** The interior case of a forward insertion: a new cell linked after the cell at `at`. */
    method LinkAfter(v: T, at: nat)
      requires Valid() && at < |Contents| - 1
      modifies this, Repr
      ensures Valid() && fresh(Repr - old(Repr)) && old(Repr) <= Repr
      ensures Contents == old(Contents)[..at + 1] + [v] + old(Contents)[at + 1..]
    {
      var node := AtNode(at);
      var cell := new Node(v);
      ghost var before, vals := nodes, Contents;
      assert node.next == before[at + 1] && before[at + 1] in Repr && before[at + 1] != node;
      node.LinkNext(cell);
      len := len + 1;
      Repr := Repr + {cell};
      nodes, Contents := before[..at + 1] + [cell] + before[at + 1..], vals[..at + 1] + [v] + vals[at + 1..];
      SplicedValid(before, vals, at + 1, cell, v);
    }

    /**
     * Proof step shared by the two insertions: the list is valid again once
     * `cell` has been spliced into the chain at position `k`, provided the
     * links around the splice point are in place, the rest of the chain kept
     * its links and the ends are unchanged.
     */
    lemma SplicedValid(before: seq<Node<T>>, vals: seq<T>, k: nat, cell: Node<T>, v: T)
      requires 0 < k < |before| == |vals|
      requires this !in Repr && len == |before| + 1
      requires nodes == before[..k] + [cell] + before[k..] && Contents == vals[..k] + [v] + vals[k..]
      requires Distinct(before) && cell !in before
      requires forall i :: 0 <= i < |before| ==> before[i] in Repr && before[i].value == vals[i]
      requires cell in Repr && cell.value == v
      requires before[k - 1].next == cell && cell.back == before[k - 1]
      requires cell.next == before[k] && before[k].back == cell
      requires forall i :: 0 <= i < |before| - 1 && i != k - 1 ==> before[i].next == before[i + 1] && before[i + 1].back == before[i]
      requires head == before[0] && tail == before[|before| - 1] && head.back == null && tail.next == null
      ensures Valid()
    {
      assert forall i :: 0 <= i < k ==> nodes[i] == before[i];
      assert forall i :: k < i < |nodes| ==> nodes[i] == before[i - 1];
    }

    /**
     * The position of the first `v` at or after position `skip`, or `NO_POS`
     * when there is none (in particular when `skip` is not below the length).
     */
    method Find(v: T, skip: nat) returns (r: int)
      requires Valid()
      ensures r == NO_POS <==> forall k :: skip <= k < |Contents| ==> Contents[k] != v
      ensures r != NO_POS ==> skip <= r < |Contents| && Contents[r] == v
      ensures r != NO_POS ==> forall k :: skip <= k < r ==> Contents[k] != v
    {
      if skip >= len {
        return NO_POS;
      }
      var at := skip;
      var it := head.Advance(skip, nodes, 0);
      while it != null
        invariant skip <= at <= len
        invariant it == if at < len then nodes[at] else null
        invariant forall k :: skip <= k < at ==> Contents[k] != v
        decreases len - at
      {
        if it.value == v {
          return at;
        }
        at := at + 1;
        it := it.next;
      }
      return NO_POS;
    }

    /**
     * The position of the last `v` at or before position `len - 1 - skip`
     * (ignoring the last `skip` elements), or `NO_POS` when there is none.
     */
    method RFind(v: T, skip: nat) returns (r: int)
      requires Valid()
      ensures r == NO_POS <==> forall k :: 0 <= k < |Contents| - skip ==> Contents[k] != v
      ensures r != NO_POS ==> 0 <= r < |Contents| - skip && Contents[r] == v
      ensures r != NO_POS ==> forall k :: r < k < |Contents| - skip ==> Contents[k] != v
    {
      if skip >= len {
        return NO_POS;
      }
      var at: int := len - skip - 1;
      var it := tail.Retreat(skip, nodes, len - 1);
      while it != null
        invariant -1 <= at < len - skip
        invariant it == if at >= 0 then nodes[at] else null
        invariant forall k :: at < k < len - skip ==> Contents[k] != v
        decreases at
      {
        if it.value == v {
          return at;
        }
        at := at - 1;
        it := it.back;
      }
      return NO_POS;
    }

    /** Whether `v` occurs in the list. */
    method Contains(v: T) returns (b: bool)
      requires Valid()
      ensures b <==> v in Contents
    {
      var at := Find(v, 0);
      return at != NO_POS;
    }

    /** Whether every element of `other` occurs in this list; true when `other` is empty. */
    method ContainsAll(other: List<T>) returns (b: bool)
      requires Valid() && other.Valid()
      ensures b <==> forall k :: 0 <= k < |other.Contents| ==> other.Contents[k] in Contents
    {
      var it := other.head;
      ghost var j := 0;
      while it != null
        invariant 0 <= j <= |other.nodes|
        invariant it == if j < |other.nodes| then other.nodes[j] else null
        invariant forall k :: 0 <= k < j ==> other.Contents[k] in Contents
        decreases |other.nodes| - j
      {
        var found := Contains(it.value);
        if !found {
          return false;
        }
        it := it.next;
        j := j + 1;
      }
      return true;
    }

    /** A new list of every position holding `v`, in increasing order. */
    method FindAll(v: T) returns (indices: List<nat>)
      requires Valid()
      ensures fresh(indices) && fresh(indices.Repr) && indices.Valid()
      ensures indices.Contents == MatchIndices(Contents, v)
    {
      indices := new List();
      var at := 0;
      var it := head;
      while it != null
        invariant at <= len
        invariant it == if at < len then nodes[at] else null
        invariant fresh(indices) && fresh(indices.Repr) && indices.Valid()
        invariant indices.Contents == MatchIndices(Contents[..at], v)
        decreases len - at
      {
        assert Contents[..at + 1][..at] == Contents[..at];
        if it.value == v {
          indices.PushBack(at);
        }
        at := at + 1;
        it := it.next;
      }
      assert Contents[..at] == Contents;
    }

    /**
     * Removes the element at `at` and returns it: the first element when `at`
     * is 0, the last when `at` is at or past the last position. Undefined in
     * the library on an empty list.
     */
    method Remove(at: nat) returns (v: T)
      requires Valid() && Contents != []
      modifies this, Repr
      ensures Valid() && Repr <= old(Repr)
      ensures var k := if at < |old(Contents)| then at else |old(Contents)| - 1;
        v == old(Contents)[k] && Contents == old(Contents)[..k] + old(Contents)[k + 1..]
    {
      if at == 0 {
        v := PopFront();
        return;
      }
      if at >= len - 1 {
        v := PopBack();
        assert old(Contents)[len + 1..] == [];
        return;
      }
      var node := AtNode(at);
      v := node.value;
      ghost var before, vals := nodes, Contents;
      assert node.back == before[at - 1] && before[at - 1] in Repr && before[at - 1] != node;
      assert node.next == before[at + 1] && before[at + 1] in Repr && before[at + 1] != node;
      len := len - 1;
      node.Unlink();
      nodes, Contents := before[..at] + before[at + 1..], vals[..at] + vals[at + 1..];
      Repr := Repr - {node};
      CutValid(before, vals, at, at + 1);
    }

    /**
     * Unlinks the cell `node`, which is at position `k`, repairing `head` and
     * `tail` when it is one of the ends, and returns the cell that followed it.
     * This is the removal step of `retainIf` and `removeIf`.
     */
    method Drop(node: Node<T>, ghost k: nat) returns (next: Node?<T>)
      requires Valid() && k < |nodes| && node == nodes[k]
      modifies this, Repr
      ensures Valid() && Repr <= old(Repr)
      ensures nodes == old(nodes)[..k] + old(nodes)[k + 1..]
      ensures Contents == old(Contents)[..k] + old(Contents)[k + 1..]
      ensures next == if k + 1 < |old(nodes)| then old(nodes)[k + 1] else null
    {
      ghost var before, vals := nodes, Contents;
      ghost var n := |before|;
      assert k > 0 ==> node.back == before[k - 1] && before[k - 1] in Repr && before[k - 1] != node;
      assert k + 1 < n ==> node.next == before[k + 1] && before[k + 1] in Repr && before[k + 1] != node;
      assert k > 0 && k + 1 < n ==> before[k - 1] != before[k + 1];
      len := len - 1;
      next := node.next;
      if node == head {
        head := next;
      }
      if node == tail {
        tail := node.back;
      }
      node.Unlink();
      nodes, Contents := before[..k] + before[k + 1..], vals[..k] + vals[k + 1..];
      Repr := Repr - {node};
      CutValid(before, vals, k, k + 1);
    }

    /**
     * Proof step shared by the removals: the list is valid again once the
     * cells at positions `s` to `e - 1` have been taken out of the chain,
     * provided the cells on either side are joined, the rest of the chain
     * kept its links and the ends are the right cells.
     */
    lemma CutValid(before: seq<Node<T>>, vals: seq<T>, s: nat, e: nat)
      requires s < e <= |before| == |vals|
      requires this !in Repr && len + (e - s) == |before|
      requires nodes == before[..s] + before[e..] && Contents == vals[..s] + vals[e..]
      requires Distinct(before)
      requires forall i :: 0 <= i < |before| && !(s <= i < e) ==> before[i] in Repr
      requires forall i :: 0 <= i < |before| ==> before[i].value == vals[i]
      requires 0 < s && e < |before| ==> before[s - 1].next == before[e] && before[e].back == before[s - 1]
      requires forall i {:trigger before[i].next} :: 0 <= i < |before| - 1 && !(s - 1 <= i < e) ==>
        before[i].next == before[i + 1] && before[i + 1].back == before[i]
      requires s == 0 && e == |before| ==> head == null && tail == null
      requires !(s == 0 && e == |before|) ==>
        && head == (if s == 0 then before[e] else before[0])
        && tail == (if e == |before| then before[s - 1] else before[|before| - 1])
        && head.back == null && tail.next == null
      ensures Valid()
    {
      assert forall i :: 0 <= i < s ==> nodes[i] == before[i] && Contents[i] == vals[i];
      assert forall i :: s <= i < |nodes| ==> nodes[i] == before[i + (e - s)] && Contents[i] == vals[i + (e - s)];
      forall i | 0 <= i < |nodes| - 1
        ensures nodes[i].next == nodes[i + 1] && nodes[i + 1].back == nodes[i]
      {
        if i >= s {
          assert before[i + (e - s)].next == before[i + (e - s) + 1];
        } else if i < s - 1 {
          assert before[i].next == before[i + 1];
        }
      }
    }

    /**
     * Keeps only the elements satisfying `keep`, in their order, and returns
     * how many were removed.
     */
    method RetainIf(keep: T -> bool) returns (removed: nat)
      requires Valid()
      modifies this, Repr
      ensures Valid() && Repr <= old(Repr)
      ensures Contents == Filter(old(Contents), keep)
      ensures removed == |old(Contents)| - |Contents|
    {
      var oldLen := len;
      ghost var orig, vals := nodes, Contents;
      ghost var j, kept := 0, 0;
      var it := head;
      while it != null
        invariant Valid() && Repr <= old(Repr)
        invariant Walking(orig, vals, j, kept, keep)
        invariant it == if j < |orig| then orig[j] else null
        decreases |orig| - j
      {
        it, kept := Sift(it, orig, vals, j, kept, keep);
        j := j + 1;
      }
      assert vals[..j] == vals;
      return oldLen - len;
    }

    /**
     * Removes the elements satisfying `discard`, keeping the others in their
     * order, and returns how many were removed.
     */
    method RemoveIf(discard: T -> bool) returns (removed: nat)
      requires Valid()
      modifies this, Repr
      ensures Valid() && Repr <= old(Repr)
      ensures Contents == Filter(old(Contents), x => !discard(x))
      ensures removed == |old(Contents)| - |Contents|
    {
      var oldLen := len;
      var keep := x => !discard(x);
      ghost var orig, vals := nodes, Contents;
      ghost var j, kept := 0, 0;
      var it := head;
      while it != null
        invariant Valid() && Repr <= old(Repr)
        invariant Walking(orig, vals, j, kept, keep)
        invariant it == if j < |orig| then orig[j] else null
        decreases |orig| - j
      {
        it, kept := Sift(it, orig, vals, j, kept, keep);
        j := j + 1;
      }
      assert vals[..j] == vals;
      return oldLen - len;
    }

    /**
     * The invariant of the filtering walk over the original chain `orig`
     * with values `vals`: the first `j` original cells have been sifted, the
     * `kept` survivors hold the filtered values, and the unvisited cells
     * follow them unchanged.
     */
    ghost predicate Walking(orig: seq<Node<T>>, vals: seq<T>, j: nat, kept: nat, keep: T -> bool)
      reads this
    {
      && j <= |orig| == |vals| && kept <= |nodes| == |Contents|
      && nodes[kept..] == orig[j..] && Contents[kept..] == vals[j..]
      && Contents[..kept] == Filter(vals[..j], keep)
    }

    /**
     * One step of the filtering walk: the cell `it`, the next unvisited one,
     * stays when it satisfies `keep` and is dropped otherwise; the cell after
     * it is returned.
     */
    method Sift(it: Node<T>, ghost orig: seq<Node<T>>, ghost vals: seq<T>, ghost j: nat, ghost kept: nat, keep: T -> bool)
      returns (next: Node?<T>, ghost kept': nat)
      requires Valid() && Walking(orig, vals, j, kept, keep) && j < |orig| && it == orig[j]
      modifies this, Repr
      ensures Valid() && Repr <= old(Repr)
      ensures Walking(orig, vals, j + 1, kept', keep)
      ensures next == if j + 1 < |orig| then orig[j + 1] else null
    {
      FilterStep(nodes, Contents, orig, vals, kept, j, keep);
      if keep(it.value) {
        next := it.next;
        kept' := kept + 1;
      } else {
        next := Drop(it, kept);
        kept' := kept;
      }
    }

    /**
     * Exchanges the elements of this list and `other`; nothing happens when
     * they are the same list.
     */
    method Swap(other: List<T>)
      requires Valid() && other.Valid() && (this == other || ({this} + Repr) !! ({other} + other.Repr))
      modifies this, other
      ensures Valid() && other.Valid()
      ensures this == other ==> Contents == old(Contents) && Repr == old(Repr)
      ensures this != other ==> Contents == old(other.Contents) && other.Contents == old(Contents)
      ensures this != other ==> Repr == old(other.Repr) && other.Repr == old(Repr)
    {
      if this == other {
        return;
      }
      len, other.len := other.len, len;
      head, other.head := other.head, head;
      tail, other.tail := other.tail, tail;
      nodes, other.nodes := other.nodes, nodes;
      Contents, other.Contents := other.Contents, Contents;
      Repr, other.Repr := other.Repr, Repr;
      Adopted(other);
      other.Adopted(this);
    }

    /** A list none of whose fields and cells changed is still valid. */
    twostate lemma Kept()
      requires old(Valid()) && unchanged(this)
      requires forall o :: o in Repr ==> unchanged(o)
      ensures Valid()
    {
    }

    /**
     * Proof step of `Swap`: this list is valid when it took over the fields
     * of `from`, which was valid before, and none of the cells changed.
     */
    twostate lemma Adopted(from: List<T>)
      requires old(from.Valid()) && this != from
      requires len == old(from.len) && head == old(from.head) && tail == old(from.tail)
      requires nodes == old(from.nodes) && Contents == old(from.Contents) && Repr == old(from.Repr)
      requires this !in Repr
      requires forall o :: o in Repr ==> unchanged(o)
      ensures Valid()
    {
    }

    /**
     * Moves all elements of `other` to the end of this list in constant time,
     * leaving `other` empty; when this list is empty the two are swapped.
     * Appending a non-empty list to itself goes through the same steps with
     * both lists the same: the chain is closed into a cycle and the list is
     * then emptied, so it ends with no elements.
     */
    method Append(other: List<T>)
      requires Valid() && other.Valid() && (this == other || ({this} + Repr) !! ({other} + other.Repr))
      modifies this, Repr, other, other.Repr
      ensures Valid() && other.Valid()
      ensures this != other ==> Contents == old(Contents) + old(other.Contents) && other.Contents == []
      ensures this != other ==> ({this} + Repr) !! ({other} + other.Repr) && Repr + other.Repr == old(Repr + other.Repr)
      ensures this == other ==> Contents == [] && Repr <= old(Repr)
    {
      if other.len == 0 {
        return;
      }
      if len == 0 {
        Swap(other);
        return;
      }
      if this == other {
        SelfJoin();
        return;
      }
      Join(other);
    }

    /**
     * `Append` of a non-empty list to itself: the tail is linked to the head,
     * the length doubled and the tail kept, and then the list, in the role of
     * `other`, has its length and both ends reset.
     */
    method SelfJoin()
      requires Valid() && Contents != []
      modifies this, Repr
      ensures Valid() && Contents == [] && Repr == {}
    {
      len := len + len;
      tail.next := head;
      head.back := tail;
      tail := tail;
      len := 0;
      head := null;
      tail := null;
      nodes, Contents, Repr := [], [], {};
    }

    /** The interior case of `Append`: both lists are non-empty and their chains are joined. */
    method Join(other: List<T>)
      requires Valid() && other.Valid() && ({this} + Repr) !! ({other} + other.Repr)
      requires Contents != [] && other.Contents != []
      modifies this, Repr, other, other.Repr
      ensures Valid() && other.Valid()
      ensures Contents == old(Contents) + old(other.Contents) && other.Contents == []
      ensures ({this} + Repr) !! ({other} + other.Repr) && Repr + other.Repr == old(Repr + other.Repr)
    {
      ghost var mine, cm, mr := nodes, Contents, Repr;
      ghost var theirs, ct, tr := other.nodes, other.Contents, other.Repr;
      Link(tail, other.head, mine, theirs, mr, tr);
      Absorb(other, mine, cm, mr, theirs, ct, tr);
    }

    /**
     * The second half of `Join`, once the cells of `other` are linked after
     * this list's: this list takes over the length, the tail and the cells of
     * `other`, which is left empty.
     */
    method Absorb(other: List<T>, ghost mine: seq<Node<T>>, ghost cm: seq<T>, ghost mr: set<object>,
                  ghost theirs: seq<Node<T>>, ghost ct: seq<T>, ghost tr: set<object>)
      requires this != other && this !in mr + tr && other !in mr + tr
      requires |mine| == |cm| > 0 && |theirs| == |ct| > 0
      requires Chain(mine + theirs, mine[0], theirs[|theirs| - 1], mr + tr) && Distinct(mine + theirs)
      requires nodes == mine && Contents == cm && Repr == mr && len == |mine| && head == mine[0]
      requires other.nodes == theirs && other.Contents == ct && other.Repr == tr && other.len == |theirs|
      requires other.tail == theirs[|theirs| - 1]
      requires forall i :: 0 <= i < |mine| ==> mine[i].value == cm[i]
      requires forall i :: 0 <= i < |theirs| ==> theirs[i].value == ct[i]
      modifies this, other
      ensures Valid() && other.Valid()
      ensures Contents == cm + ct && other.Contents == [] && Repr == mr + tr && other.Repr == {}
    {
      len := len + other.len;
      tail := other.tail;
      other.len := 0;
      other.head := null;
      other.tail := null;
      nodes, Contents := nodes + other.nodes, Contents + other.Contents;
      Repr := Repr + other.Repr;
      other.nodes, other.Contents, other.Repr := [], [], {};
    }

    /**
     * Cuts the elements at positions `start` to `end - 1` out of this list
     * and returns them as a new list. Both bounds are first clamped to the
     * length; when the clamped range is empty the result is empty and this
     * list is unchanged.
     */
    method SliceOff(start: nat, end: nat) returns (r: List<T>)
      requires Valid()
      modifies this, Repr
      ensures Valid() && fresh(r) && r.Valid()
      ensures ({this} + Repr) !! ({r} + r.Repr) && Repr + r.Repr <= old(Repr)
      ensures var s, e := Clamp(start, |old(Contents)|), Clamp(end, |old(Contents)|);
        s < e ==> r.Contents == old(Contents)[s..e] && Contents == old(Contents)[..s] + old(Contents)[e..]
      ensures var s, e := Clamp(start, |old(Contents)|), Clamp(end, |old(Contents)|);
        s >= e ==> r.Contents == [] && Contents == old(Contents)
    {
      var s, e := start, end;
      if s >= len {
        s := len;
      }
      if e > len {
        e := len;
      }
      if s >= e {
        r := new List();
        return;
      }
      r := Cut(s, e);
    }

    /**
     * The non-empty case of `SliceOff`: the cells at positions `s` to `e - 1`
     * are detached and handed to a new list, and this list's length and ends
     * are repaired.
     */
    method Cut(s: nat, e: nat) returns (r: List<T>)
      requires Valid() && s < e <= |Contents|
      modifies this, Repr
      ensures Valid() && fresh(r) && r.Valid()
      ensures this !in r.Repr && r !in Repr && Repr !! r.Repr
      ensures r.Repr <= old(Repr) && Repr == old(Repr) - r.Repr
      ensures r.Contents == old(Contents)[s..e] && Contents == old(Contents)[..s] + old(Contents)[e..]
    {
      var startNode := AtNode(s);
      var endNode := AtNode(e - 1);
      ghost var before, vals := nodes, Contents;
      ghost var cut := RunCells(before, s, e, Repr);
      var backNode := startNode.back;
      var nextNode := endNode.next;
      assert backNode == if s > 0 then before[s - 1] else null;
      assert nextNode == if e < |before| then before[e] else null;
      Unchain(backNode, startNode, endNode, nextNode, before, s, e, Repr);
      RunChain(before, vals, s, e, Repr, cut);
      r := new List.FromRun(startNode, endNode, e - s, before[s..e], vals[s..e], cut);
      label made:
      Reseat(before, vals, s, e, cut, backNode, nextNode);
      r.Kept@made();
    }

    /**
     * The second half of `Cut`, once the run `before[s..e]` has been
     * detached: this list's length, ends and cells become those of the rest
     * of the chain.
     */
    method Reseat(ghost before: seq<Node<T>>, ghost vals: seq<T>, s: nat, e: nat, ghost cut: set<object>,
                  backNode: Node?<T>, nextNode: Node?<T>)
      requires Detached(before, s, e, Repr) && Distinct(before) && |before| == |vals|
      requires forall i :: 0 <= i < |before| ==> before[i].value == vals[i]
      requires this !in Repr && len == |before| && cut <= Repr
      requires forall i :: 0 <= i < |before| ==> (before[i] in cut <==> s <= i < e)
      requires backNode == (if s > 0 then before[s - 1] else null)
      requires nextNode == (if e < |before| then before[e] else null)
      requires head == before[0] && tail == before[|before| - 1]
      modifies this
      ensures Valid() && Repr == old(Repr) - cut
      ensures nodes == before[..s] + before[e..] && Contents == vals[..s] + vals[e..]
    {
      len := len - (e - s);
      if backNode == null {
        head := nextNode;
      }
      if nextNode == null {
        tail := backNode;
      }
      nodes, Contents, Repr := before[..s] + before[e..], vals[..s] + vals[e..], Repr - cut;
      StillDetached((before, s, e, old(Repr)));
      SlicedValid(before, vals, s, e, old(Repr), cut);
    }

    /**
     * Proof step of `SliceOff` for the list that is left: it is valid once
     * the run `before[s..e]` has been detached and the list's fields describe
     * the rest of the chain.
     */
    lemma SlicedValid(before: seq<Node<T>>, vals: seq<T>, s: nat, e: nat, cells: set<object>, cut: set<object>)
      requires Detached(before, s, e, cells) && Distinct(before) && |before| == |vals|
      requires forall i :: 0 <= i < |before| ==> before[i].value == vals[i]
      requires this !in Repr && Repr == cells - cut && len + (e - s) == |before|
      requires forall i :: 0 <= i < |before| ==> (before[i] in cut <==> s <= i < e)
      requires nodes == before[..s] + before[e..] && Contents == vals[..s] + vals[e..]
      requires head == (if s > 0 then before[0] else if e < |before| then before[e] else null)
      requires tail == (if e < |before| then before[|before| - 1] else if s > 0 then before[s - 1] else null)
      ensures Valid()
    {
      SpliceOut(before, vals, s, e, cells);
      assert forall i :: 0 <= i < s ==> nodes[i] == before[i];
    }

    /**
     * Reverses the order of the elements in place: every cell has its two
     * links swapped, and the head and the tail are exchanged.
     */
    method Reverse()
      requires Valid()
      modifies this, Repr
      ensures Valid() && Repr == old(Repr)
      ensures Contents == Sequences.Reverse(old(Contents))
    {
      if len == 0 {
        return;
      }
      ghost var orig, vals := nodes, Contents;
      ChainFlipped(orig, head, tail, Repr);
      FlipAll(head, orig, Repr);
      ReversedChain(orig, vals, Repr);
      label flipped:
      head, tail := tail, head;
      nodes, Contents := Sequences.Reverse(orig), Sequences.Reverse(vals);
      StillChain@flipped((nodes, head, tail, Repr));
    }

    /** Removes every element; the cells are no longer owned by the list. */
    method Clear()
      requires Valid()
      modifies this
      ensures Valid() && Contents == [] && Repr == {}
    {
      len, head, tail := 0, null, null;
      nodes, Contents, Repr := [], [], {};
    }

    /**
     * Feeds the elements to `f` from the head to the tail, threading the
     * accumulator from `init`, and returns the final accumulator.
     */
    method Fold<B>(f: (T, B) -> B, init: B) returns (acc: B)
      requires Valid()
      ensures acc == FoldLeft(Contents, f, init)
    {
      acc := init;
      var it := head;
      ghost var j := 0;
      while it != null
        invariant j <= |nodes| && it == if j < |nodes| then nodes[j] else null
        invariant FoldLeft(Contents[j..], f, acc) == FoldLeft(Contents, f, init)
        decreases |nodes| - j
      {
        assert Contents[j..][1..] == Contents[j + 1..];
        acc := f(it.value, acc);
        it := it.next;
        j := j + 1;
      }
    }

    /**
     * The results of `f` on every run of `n` consecutive elements, from the
     * front, as a new list. The run is kept in a buffer of `n` slots that is
     * shifted down by one slot before each element is stored in the last slot.
     */
    method Window<R(==)>(n: nat, f: seq<T> -> R) returns (r: List<R>)
      requires Valid() && n >= 1
      ensures fresh(r) && fresh(r.Repr) && r.Valid()
      ensures r.Contents == Windows(Contents, n, f)
    {
      r := new List();
      if head == null {
        return;
      }
      var first := head.value;
      var window := new T[n](_ => first);
      var it := head;
      var i := 0;
      while it != null
        invariant i <= |nodes| && it == if i < |nodes| then nodes[i] else null
        invariant fresh(r) && fresh(r.Repr) && r.Valid() && window !in r.Repr
        invariant r.Contents == Windows(Contents[..i], n, f)
        invariant window.Length == n && Filled(window[..], Contents[..i])
        decreases |nodes| - i
      {
        Slide(r, window, it.value, Contents, i, f);
        it := it.next;
        i := i + 1;
      }
      assert Contents[..i] == Contents;
    }

    /**
     * Appends a copy of every element of `other` to this list, in order; the
     * cells of `other` are not touched.
     */
    method AppendCopy(other: List<T>)
      requires Valid() && other.Valid() && ({this} + Repr) !! ({other} + other.Repr)
      modifies this, Repr
      ensures Valid() && fresh(Repr - old(Repr)) && old(Repr) <= Repr
      ensures other.Valid() && ({this} + Repr) !! ({other} + other.Repr)
      ensures Contents == old(Contents) + other.Contents
    {
      var it := other.head;
      ghost var j := 0;
      while it != null
        invariant j <= |other.nodes| && it == if j < |other.nodes| then other.nodes[j] else null
        invariant Valid() && fresh(Repr - old(Repr)) && old(Repr) <= Repr
        invariant other.Valid() && ({this} + Repr) !! ({other} + other.Repr)
        invariant Contents == old(Contents) + other.Contents[..j]
        decreases |other.nodes| - j
      {
        assert other.Contents[..j + 1] == other.Contents[..j] + [it.value];
        PushBack(it.value);
        it := it.next;
        j := j + 1;
      }
      assert other.Contents[..j] == other.Contents;
    }

    /** A new list holding the elements of this list followed by those of `other`. */
    method Concat(other: List<T>) returns (r: List<T>)
      requires Valid() && other.Valid()
      ensures fresh(r) && fresh(r.Repr) && r.Valid()
      ensures r.Contents == Contents + other.Contents
    {
      r := new List();
      r.AppendCopy(this);
      r.AppendCopy(other);
    }

    /**
     * Whether the two lists hold the same elements in the same order: a list
     * equals itself, lists of different lengths differ, and otherwise the
     * elements are compared pairwise from the heads.
     */
    method Equals(other: List<T>) returns (b: bool)
      requires Valid() && other.Valid()
      ensures b <==> Contents == other.Contents
    {
      if this == other {
        return true;
      }
      if len != other.len {
        return false;
      }
      var it, otherIt := head, other.head;
      ghost var j := 0;
      while it != null
        invariant j <= |nodes| == |other.nodes|
        invariant it == if j < |nodes| then nodes[j] else null
        invariant otherIt == if j < |nodes| then other.nodes[j] else null
        invariant Contents[..j] == other.Contents[..j]
        decreases |nodes| - j
      {
        if it.value != otherIt.value {
          return false;
        }
        it, otherIt := it.next, otherIt.next;
        j := j + 1;
      }
      assert Contents == Contents[..j] && other.Contents == other.Contents[..j];
      return true;
    }

    /**
     * Makes this list a copy of `other`, in new cells; assigning a list to
     * itself changes nothing.
     */
    method Assign(other: List<T>)
      requires Valid() && other.Valid()
      requires this == other || ({this} + Repr) !! ({other} + other.Repr)
      modifies this
      ensures Valid() && Contents == old(other.Contents)
      ensures this == other ==> Repr == old(Repr)
      ensures this != other ==> fresh(Repr) && other.Valid() && ({this} + Repr) !! ({other} + other.Repr)
    {
      if this == other {
        return;
      }
      Clear();
      AppendCopy(other);
    }

    /**
     * The list made of `n` cells already linked as the chain `run` from
     * `first` to `last`; this is the list `sliceOff` hands back.
     */
    constructor FromRun(first: Node<T>, last: Node<T>, n: nat, ghost run: seq<Node<T>>, ghost vals: seq<T>, ghost cells: set<object>)
      requires n == |run| == |vals| && Distinct(run) && Chain(run, first, last, cells)
      requires forall i :: 0 <= i < |run| ==> run[i].value == vals[i]
      ensures Valid() && Contents == vals && Repr == cells
    {
      len, head, tail := n, first, last;
      nodes, Contents, Repr := run, vals, cells;
    }
  }

  /**
   * Proof step of `Reverse`: once every cell of `orig` has its links
   * swapped, the reversal of `orig` is a chain of distinct cells from the
   * last cell to the first, holding the reversed values.
   */
  lemma ReversedChain<T>(orig: seq<Node<T>>, vals: seq<T>, cells: set<object>)
    requires orig != [] && |orig| == |vals| && Distinct(orig) && Flipped(orig, |orig|, cells)
    requires forall i :: 0 <= i < |orig| ==> orig[i].value == vals[i]
    ensures var r := Sequences.Reverse(orig);
      Distinct(r) && Chain(r, orig[|orig| - 1], orig[0], cells)
    ensures forall i :: 0 <= i < |orig| ==> Sequences.Reverse(orig)[i].value == Sequences.Reverse(vals)[i]
  {
    var n, r := |orig|, Sequences.Reverse(orig);
    ReverseAll(orig);
    ReverseAll(vals);
    forall k | 0 <= k < n - 1
      ensures r[k].next == r[k + 1] && r[k + 1].back == r[k]
    {
      assert orig[n - 1 - k].next == BackOf(orig, n - 1 - k);
      assert orig[n - 2 - k].back == NextOf(orig, n - 2 - k);
    }
    assert orig[n - 1].back == NextOf(orig, n - 1) && orig[0].next == BackOf(orig, 0);
  }

  /**
   * The window buffer holds the last elements of `seen`: all of its slots
   * once `seen` is at least as long as the buffer, its last `|seen|` slots
   * before that.
   */
  ghost predicate Filled<T>(window: seq<T>, seen: seq<T>)
  {
    if |seen| >= |window| then window == seen[|seen| - |window|..]
    else window[|window| - |seen|..] == seen
  }

  /**
   * One step of the window pass over `s`: shifting `s[i]` into a buffer
   * filled from `s[..i]` fills it from `s[..i + 1]`, and the windows of
   * `s[..i + 1]` are those of `s[..i]` followed, once `n` elements have been
   * seen, by the result of `f` on the new buffer.
   */
  lemma WindowStep<T, R>(before: seq<T>, after: seq<T>, s: seq<T>, i: nat, n: nat, f: seq<T> -> R)
    requires 1 <= n == |before| && i < |s| && after == before[1..] + [s[i]] && Filled(before, s[..i])
    ensures Filled(after, s[..i + 1])
    ensures Windows(s[..i + 1], n, f) == Windows(s[..i], n, f) + if i + 1 >= n then [f(after)] else []
  {
    assert s[..i + 1] == s[..i] + [s[i]];
    assert s[..i + 1][..i] == s[..i];
  }

  /**
   * One step of the window pass: `v`, element `i` of `s`, is shifted into
   * the buffer, and once the buffer is full the result of `f` on it is
   * appended to `r`.
   */
  method Slide<T, R(==)>(r: List<R>, window: array<T>, v: T, ghost s: seq<T>, i: nat, f: seq<T> -> R)
    requires r.Valid() && window !in r.Repr && window.Length >= 1
    requires i < |s| && v == s[i] && Filled(window[..], s[..i])
    requires r.Contents == Windows(s[..i], window.Length, f)
    modifies r, r.Repr, window
    ensures r.Valid() && fresh(r.Repr - old(r.Repr)) && old(r.Repr) <= r.Repr && window !in r.Repr
    ensures Filled(window[..], s[..i + 1]) && r.Contents == Windows(s[..i + 1], window.Length, f)
  {
    ghost var before := window[..];
    ShiftIn(window, v);
    WindowStep(before, window[..], s, i, window.Length, f);
    if i + 1 >= window.Length {
      r.PushBack(f(window[..]));
    }
  }

  /**
   * Moves every slot of `window` down by one, dropping the first, and stores
   * `v` in the last slot (the `memmove` and store of the window pass).
   */
  method ShiftIn<T>(window: array<T>, v: T)
    requires window.Length >= 1
    modifies window
    ensures window[..] == old(window[1..]) + [v]
  {
    var n := window.Length;
    if n > 1 {
      forall k | 0 <= k < n - 1 {
        window[k] := window[k + 1];
      }
    }
    window[n - 1] := v;
  }

  /**
   * Where `Insert(v, at, backwarded)` places the new element in a list of
   * length `n`: at `at` when inserting backward, just after `at` when
   * inserting forward, and at the end when `at` is past the last position.
   */
  function InsertPosition(at: nat, n: nat, backwarded: bool): (k: nat)
    ensures k <= n
    ensures at < n ==> k == if backwarded then at else at + 1
    ensures at >= n ==> k == n
  {
    if at == 0 && backwarded then 0
    else if at >= n then n
    else if at == n - 1 && !backwarded then n
    else if backwarded then at
    else at + 1
  }

  /**
   * One step of the filtering walk: the cell under the cursor is the one at
   * position `kept` of the current chain, and either keeping it or dropping
   * it re-establishes the walk's invariant one position further.
   */
  lemma FilterStep<T>(nodes: seq<Node<T>>, contents: seq<T>, orig: seq<Node<T>>, vals: seq<T>, kept: nat, j: nat, keep: T -> bool)
    requires j < |orig| == |vals| && kept <= |nodes| == |contents|
    requires nodes[kept..] == orig[j..] && contents[kept..] == vals[j..]
    requires contents[..kept] == Filter(vals[..j], keep)
    ensures kept < |nodes| && nodes[kept] == orig[j] && contents[kept] == vals[j]
    ensures keep(vals[j]) ==>
      nodes[kept + 1..] == orig[j + 1..] && contents[kept + 1..] == vals[j + 1..]
      && contents[..kept + 1] == Filter(vals[..j + 1], keep)
    ensures !keep(vals[j]) ==>
      var n, c := nodes[..kept] + nodes[kept + 1..], contents[..kept] + contents[kept + 1..];
      n[kept..] == orig[j + 1..] && c[kept..] == vals[j + 1..] && c[..kept] == Filter(vals[..j + 1], keep)
  {
    assert nodes[kept..][0] == orig[j..][0];
    assert contents[kept..][0] == vals[j..][0];
    assert vals[..j + 1][..j] == vals[..j];
    assert contents[..kept + 1] == contents[..kept] + [contents[kept]];
    var n, c := nodes[..kept] + nodes[kept + 1..], contents[..kept] + contents[kept + 1..];
    assert n[kept..] == nodes[kept + 1..];
    assert c[kept..] == contents[kept + 1..];
    assert c[..kept] == contents[..kept];
  }

  /**
   * What is left of a chain once the run `chain[s..e]` has been detached is
   * itself a chain of distinct cells with null outer links.
   */
  lemma SpliceOut<T>(chain: seq<Node<T>>, vals: seq<T>, s: nat, e: nat, cells: set<object>)
    requires Detached(chain, s, e, cells) && Distinct(chain) && |chain| == |vals|
    requires forall i :: 0 <= i < |chain| ==> chain[i].value == vals[i]
    ensures var rest := chain[..s] + chain[e..];
      && (forall i :: 0 <= i < |rest| ==> rest[i] in cells && rest[i].value == (vals[..s] + vals[e..])[i])
      && Distinct(rest) && Linked(rest)
      && (rest != [] ==> rest[0].back == null && rest[|rest| - 1].next == null)
  {
    var rest, left := chain[..s] + chain[e..], vals[..s] + vals[e..];
    assert forall i :: 0 <= i < s ==> rest[i] == chain[i] && left[i] == vals[i];
    assert forall i :: s <= i < |rest| ==> rest[i] == chain[i + (e - s)] && left[i] == vals[i + (e - s)];
    forall i | 0 <= i < |rest| - 1
      ensures rest[i].next == rest[i + 1] && rest[i + 1].back == rest[i]
    {
      if i >= s {
        assert chain[i + (e - s)].next == chain[i + (e - s) + 1];
      } else if i < s - 1 {
        assert chain[i].next == chain[i + 1];
      }
    }
  }

  /**
   * The cells of the run `chain[s..e]`, as a footprint: owned wherever the
   * chain is, and a cell of the chain is among them exactly when its position
   * is in the run.
   */
  lemma {:induction false} RunCells<T>(chain: seq<Node<T>>, s: nat, e: nat, repr: set<object>) returns (cut: set<object>)
    requires Distinct(chain) && s <= e <= |chain|
    requires forall i :: 0 <= i < |chain| ==> chain[i] in repr
    ensures cut <= repr
    ensures forall i :: 0 <= i < |chain| ==> (chain[i] in cut <==> s <= i < e)
    decreases e - s
  {
    if s == e {
      cut := {};
    } else {
      cut := RunCells(chain, s, e - 1, repr);
      cut := cut + {chain[e - 1]};
    }
  }

  /**
   * Proof step of `SliceOff` for the list handed back: the detached run
   * `before[s..e]` is a chain of distinct cells from `before[s]` to
   * `before[e - 1]`.
   */
  lemma RunChain<T>(before: seq<Node<T>>, vals: seq<T>, s: nat, e: nat, cells: set<object>, cut: set<object>)
    requires Detached(before, s, e, cells) && Distinct(before) && |before| == |vals|
    requires forall i :: s <= i < e ==> before[i] in cut
    requires forall i :: 0 <= i < |before| ==> before[i].value == vals[i]
    ensures Distinct(before[s..e]) && Chain(before[s..e], before[s], before[e - 1], cut)
    ensures forall i :: 0 <= i < e - s ==> before[s..e][i].value == vals[s..e][i]
  {
    assert forall i :: 0 <= i < e - s ==> before[s..e][i] == before[s + i];
  }

  /** Reversing a list twice gives back its elements in their original order. */
  method ReverseTwice<T>(l: List<T>)
    requires l.Valid()
    modifies l, l.Repr
    ensures l.Valid() && l.Repr == old(l.Repr) && l.Contents == old(l.Contents)
  {
    l.Reverse();
    l.Reverse();
    Sequences.ReverseInvolution(old(l.Contents));
  }

  /**
   * A second `RetainIf` with the same predicate removes nothing: the first
   * pass already left only elements that satisfy it.
   */
  method RetainIfTwice<T>(l: List<T>, keep: T -> bool) returns (first: nat, second: nat)
    requires l.Valid()
    modifies l, l.Repr
    ensures l.Valid() && l.Contents == Filter(old(l.Contents), keep)
    ensures first == |old(l.Contents)| - |l.Contents| && second == 0
  {
    first := l.RetainIf(keep);
    second := l.RetainIf(keep);
    FilterIdempotent(old(l.Contents), keep);
  }

  /** Slicing positions 1 to 2 off [1, 2, 3, 4] hands back [2, 3] and leaves [1, 4]. */
  method SliceOffExample() returns (left: List<int>, cut: List<int>)
    ensures left.Valid() && cut.Valid()
    ensures left.Contents == [1, 4] && cut.Contents == [2, 3]
  {
    left := new List();
    left.PushBack(1);
    left.PushBack(2);
    left.PushBack(3);
    left.PushBack(4);
    assert left.Contents == [1, 2, 3, 4];
    cut := left.SliceOff(1, 3);
  }

  /** The positions of 2 in [2, 5, 2, 7, 2] are 0, 2 and 4. */
  method FindAllExample() returns (indices: List<nat>)
    ensures indices.Valid() && indices.Contents == [0, 2, 4]
  {
    var l := new List();
    l.PushBack(2);
    l.PushBack(5);
    l.PushBack(2);
    l.PushBack(7);
    l.PushBack(2);
    assert l.Contents == [2, 5, 2, 7, 2];
    MatchIndicesExample();
    indices := l.FindAll(2);
  }

  /** `MatchIndices` of 2 in [2, 5, 2, 7, 2], one prefix at a time. */
  lemma MatchIndicesExample()
    ensures MatchIndices([2, 5, 2, 7, 2], 2) == [0, 2, 4]
  {
    var s := [2, 5, 2, 7, 2];
    assert s[..1][..0] == [] && MatchIndices(s[..1], 2) == [0];
    assert s[..2][..1] == s[..1] && MatchIndices(s[..2], 2) == [0];
    assert s[..3][..2] == s[..2] && MatchIndices(s[..3], 2) == [0, 2];
    assert s[..4][..3] == s[..3] && MatchIndices(s[..4], 2) == [0, 2];
    assert s[..4] == s[..|s| - 1];
  }

  /** Appending [1, 2] to itself leaves the list empty. */
  method SelfAppendExample() returns (l: List<int>)
    ensures l.Valid() && l.Contents == []
  {
    l := new List();
    l.PushBack(1);
    l.PushBack(2);
    l.Append(l);
  }
}
