/**
 * The cell of the doubly-linked list (`details::Node` in the library) and its
 * constant-time relinking primitives.
 */
module ListNodes {

  /** One cell of a chain: a value and the links to its two neighbours. */
  class Node<T> {
    const value: T
    var back: Node?<T>
    var next: Node?<T>

    /** A detached cell holding `value`. */
    constructor (value: T)
      ensures this.value == value && back == null && next == null
    {
      this.value := value;
      back := null;
      next := null;
    }

    /** A cell holding `value` whose links are `back` and `next`; the neighbours are not touched. */
    constructor WithLinks(value: T, back: Node?<T>, next: Node?<T>)
      ensures this.value == value && this.back == back && this.next == next
    {
      this.value := value;
      this.back := back;
      this.next := next;
    }

    /** Points this cell's forward link at `node`; nothing else changes. */
    method SetNext(node: Node?<T>)
      modifies this
      ensures next == node && back == old(back)
    {
      next := node;
    }

    /** Points this cell's backward link at `node`; nothing else changes. */
    method SetBack(node: Node?<T>)
      modifies this
      ensures back == node && next == old(next)
    {
      back := node;
    }

    /**
     * Swaps this cell's own two links, leaving the neighbours alone. A whole
     * list is reversed by doing this to every cell.
     */
    method Reverse()
      modifies this
      ensures back == old(next) && next == old(back)
    {
      back, next := next, back;
    }

    /**
     * Detaches this cell: its neighbours are joined to each other and its own
     * links become null. The neighbours must be two different cells other than
     * this one, as they are in every chain a list owns.
     */
    method Unlink()
      requires back != this && next != this
      requires back == null || back != next
      modifies this, back, next
      ensures back == null && next == null
      ensures old(back) != null ==>
        old(back).next == old(next) && old(back).back == old(back.back)
      ensures old(next) != null ==>
        old(next).back == old(back) && old(next).next == old(next.next)
    {
      if back != null {
        back.next := next;
      }
      if next != null {
        next.back := back;
      }
      back := null;
      next := null;
    }

    /**
     * Places `other` right after this cell; nothing happens when `other` is
     * null or this cell. The list only ever links a newly created, detached
     * cell, so that is what is required of `other` here; it is still unlinked
     * first, as in the library, which then changes nothing.
     */
    method LinkNext(other: Node?<T>)
      requires next != this
      requires other != null && other != this ==> other.back == null && other.next == null && other != next
      modifies this, next, other
      ensures other == null || other == this ==>
        back == old(back) && next == old(next) &&
        (old(next) != null ==> old(next).back == old(next.back) && old(next).next == old(next.next))
      ensures other != null && other != this ==>
        && next == other && back == old(back)
        && other.back == this && other.next == old(next)
        && (old(next) != null ==>
              old(next).back == other && old(next).next == old(next.next))
    {
      if other == null || other == this {
        return;
      }
      other.Unlink();
      if next != null {
        other.next := next;
        next.back := other;
      }
      other.back := this;
      next := other;
    }

    /**
     * Places `other` right before this cell; the mirror image of `LinkNext`.
     */
    method LinkBack(other: Node?<T>)
      requires back != this
      requires other != null && other != this ==> other.back == null && other.next == null && other != back
      modifies this, back, other
      ensures other == null || other == this ==>
        back == old(back) && next == old(next) &&
        (old(back) != null ==> old(back).back == old(back.back) && old(back).next == old(back.next))
      ensures other != null && other != this ==>
        && back == other && next == old(next)
        && other.next == this && other.back == old(back)
        && (old(back) != null ==>
              old(back).next == other && old(back).back == old(back.back))
    {
      if other == null || other == this {
        return;
      }
      other.Unlink();
      if back != null {
        other.back := back;
        back.next := other;
      }
      other.next := this;
      back := other;
    }

    /**
     * The cell `k` links further along a chain (`node + k` in the library).
     * Walking past the end is undefined in the library, so `k` must stay
     * inside the chain.
     */
    method Advance(k: nat, ghost chain: seq<Node<T>>, ghost pos: nat) returns (it: Node<T>)
      requires Linked(chain) && pos + k < |chain| && chain[pos] == this
      ensures it == chain[pos + k]
    {
      var cur := this;
      var left := k;
      while left > 0
        invariant 0 <= left <= k
        invariant cur == chain[pos + k - left]
      {
        cur := cur.next;
        left := left - 1;
      }
      it := cur;
    }

    /**
     * The cell `k` links back along a chain (`node - k` in the library), again
     * only inside the chain.
     */
    method Retreat(k: nat, ghost chain: seq<Node<T>>, ghost pos: nat) returns (it: Node<T>)
      requires Linked(chain) && k <= pos < |chain| && chain[pos] == this
      ensures it == chain[pos - k]
    {
      var cur := this;
      var left := k;
      while left > 0
        invariant 0 <= left <= k
        invariant cur == chain[pos - k + left]
      {
        cur := cur.back;
        left := left - 1;
      }
      it := cur;
    }
  }

  /**
   * Detaches the run `chain[s..e]`, from `startNode` to `endNode`, from a
   * linked chain: its outer neighbours `backNode` and `nextNode` (null at an
   * end of the chain) are joined to each other and the run's own outer links
   * become null. Only cells of `cells`, which holds the whole chain, change.
   */
  method Unchain<T>(backNode: Node?<T>, startNode: Node<T>, endNode: Node<T>, nextNode: Node?<T>,
                    ghost chain: seq<Node<T>>, ghost s: nat, ghost e: nat, ghost cells: set<object>)
    requires Linked(chain) && Distinct(chain) && s < e <= |chain|
    requires forall i :: 0 <= i < |chain| ==> chain[i] in cells
    requires startNode == chain[s] && endNode == chain[e - 1]
    requires backNode == (if s > 0 then chain[s - 1] else null)
    requires nextNode == (if e < |chain| then chain[e] else null)
    requires chain[0].back == null && chain[|chain| - 1].next == null
    modifies cells
    ensures Detached(chain, s, e, cells)
  {
    if backNode != null {
      backNode.next := nextNode;
    }
    if nextNode != null {
      nextNode.back := backNode;
    }
    startNode.back := null;
    endNode.next := null;
  }

  /**
   * Links the chain `mine`, ending at `last`, to the chain `theirs`, starting
   * at `first`; the two chains own disjoint sets of cells.
   */
  method Link<T>(last: Node<T>, first: Node<T>, ghost mine: seq<Node<T>>, ghost theirs: seq<Node<T>>,
                 ghost mr: set<object>, ghost tr: set<object>)
    requires mine != [] && theirs != [] && mr !! tr
    requires Chain(mine, mine[0], last, mr) && Chain(theirs, first, theirs[|theirs| - 1], tr)
    requires Distinct(mine) && Distinct(theirs)
    modifies last, first
    ensures Chain(mine + theirs, mine[0], theirs[|theirs| - 1], mr + tr) && Distinct(mine + theirs)
  {
    last.next := first;
    first.back := last;
    ghost var joined := mine + theirs;
    assert forall i :: 0 <= i < |mine| ==> joined[i] == mine[i];
    assert forall i :: |mine| <= i < |joined| ==> joined[i] == theirs[i - |mine|];
  }

  /**
   * Reverses every cell of the chain `chain`, which starts at `first`, by
   * walking it from `first`: once a cell is reversed, its backward link leads
   * on to the rest of the chain.
   */
  method FlipAll<T>(first: Node?<T>, ghost chain: seq<Node<T>>, ghost cells: set<object>)
    requires Distinct(chain) && Flipped(chain, 0, cells)
    requires first == if chain == [] then null else chain[0]
    modifies cells
    ensures Flipped(chain, |chain|, cells)
  {
    var it := first;
    ghost var j := 0;
    while it != null
      invariant j <= |chain| && Flipped(chain, j, cells)
      invariant it == if j < |chain| then chain[j] else null
      decreases |chain| - j
    {
      it.Reverse();
      it := it.back;
      j := j + 1;
    }
  }

  /** The cell after position `i` of `chain`, null after the last one. */
  function NextOf<T>(chain: seq<Node<T>>, i: nat): Node?<T>
  {
    if i + 1 < |chain| then chain[i + 1] else null
  }

  /** The cell before position `i` of `chain`, null before the first one. */
  function BackOf<T>(chain: seq<Node<T>>, i: nat): Node?<T>
    requires i <= |chain|
  {
    if 0 < i then chain[i - 1] else null
  }

  /**
   * The cells of `chain`, all in `cells`, before position `j` have their links
   * swapped, and the others still link as in a chain with null outer links.
   */
  ghost predicate Flipped<T>(chain: seq<Node<T>>, j: nat, cells: set<object>)
    reads cells
  {
    && j <= |chain|
    && (forall i :: 0 <= i < |chain| ==> chain[i] in cells)
    && (forall i :: 0 <= i < j ==> chain[i].next == BackOf(chain, i) && chain[i].back == NextOf(chain, i))
    && (forall i :: j <= i < |chain| ==> chain[i].next == NextOf(chain, i) && chain[i].back == BackOf(chain, i))
  }

  /** Each cell of `chain` links forward to the next one, which links back to it. */
  ghost predicate Linked<T>(chain: seq<Node<T>>)
    reads chain
  {
    forall i :: 0 <= i < |chain| - 1 ==> chain[i].next == chain[i + 1] && chain[i + 1].back == chain[i]
  }

  /**
   * `chain` is linked both ways from `head`, whose backward link is null, to
   * `tail`, whose forward link is null; both are null for the empty chain.
   */
  ghost predicate Chain<T>(chain: seq<Node<T>>, head: Node?<T>, tail: Node?<T>, cells: set<object>)
    reads cells
  {
    && (forall i :: 0 <= i < |chain| ==> chain[i] in cells)
    && Linked(chain)
    && if chain == [] then head == null && tail == null
       else head == chain[0] && tail == chain[|chain| - 1] && head.back == null && tail.next == null
  }

  /**
   * The run `chain[s..e]` has been cut out of `chain`, all of whose cells are
   * in `cells`: the cells on either side of the run are joined to each other
   * (or have a null link where the run reached an end), the run's own outer
   * links are null, and every other link is as in a linked chain.
   */
  ghost predicate Detached<T>(chain: seq<Node<T>>, s: nat, e: nat, cells: set<object>)
    reads cells
  {
    && s < e <= |chain|
    && (forall i :: 0 <= i < |chain| ==> chain[i] in cells)
    && (forall i {:trigger chain[i].next} :: 0 <= i < |chain| - 1 && !(s - 1 <= i < e) ==>
          chain[i].next == chain[i + 1] && chain[i + 1].back == chain[i])
    && (forall i {:trigger chain[i].next} :: s <= i < e - 1 ==> chain[i].next == chain[i + 1] && chain[i + 1].back == chain[i])
    && chain[s].back == null && chain[e - 1].next == null
    && (s > 0 ==> chain[s - 1].next == (if e < |chain| then chain[e] else null))
    && (e < |chain| ==> chain[e].back == (if s > 0 then chain[s - 1] else null))
    && (s > 0 ==> chain[0].back == null)
    && (e < |chain| ==> chain[|chain| - 1].next == null)
  }

  /**
   * A detached run stays detached while none of the chain's cells change.
   * The chain, the run's bounds and the cells come as one tuple.
   */
  twostate lemma StillDetached<T>(d: (seq<Node<T>>, nat, nat, set<object>))
    requires old(Detached(d.0, d.1, d.2, d.3))
    requires forall o :: o in d.3 ==> unchanged(o)
    ensures Detached(d.0, d.1, d.2, d.3)
  {
  }

  /** Before any cell is reversed, a chain is `Flipped` up to position 0. */
  lemma ChainFlipped<T>(chain: seq<Node<T>>, head: Node?<T>, tail: Node?<T>, cells: set<object>)
    requires Chain(chain, head, tail, cells)
    ensures Flipped(chain, 0, cells)
  {
  }

  /**
   * A chain stays a chain while none of its cells change. The chain, its two
   * ends and the cells come as one tuple.
   */
  twostate lemma StillChain<T>(c: (seq<Node<T>>, Node?<T>, Node?<T>, set<object>))
    requires old(Chain(c.0, c.1, c.2, c.3))
    requires forall o :: o in c.3 ==> unchanged(o)
    ensures Chain(c.0, c.1, c.2, c.3)
  {
  }

  /** No cell occurs twice in `chain`. */
  ghost predicate Distinct<T>(chain: seq<Node<T>>)
  {
    forall i, j :: 0 <= i < j < |chain| ==> chain[i] != chain[j]
  }
}
