/**
 * The bookkeeping of the two ends of a list during the filtering walks of
 * `retainIf` and `removeIf`, on positions of the chain as it was before the
 * walk. The walk visits the positions from the front; dropping position `i`
 * may have to move `head` or `tail`. `RetainEnds` is the rule the list model
 * follows (the one in `List.Drop`); the `AsWritten` walks are the library's
 * own rules, which leave an end on a dropped cell or on null.
 */
module FilterEnds {

  datatype Option<T> = None | Some(value: T)

  /** Where `head` and `tail` point, as positions of the original chain; `None` is null. */
  datatype Ends = Ends(head: Option<nat>, tail: Option<nat>)

  /** The ends of a chain of `n` cells before the walk. */
  function Start(n: nat): Ends
  {
    if n == 0 then Ends(None, None) else Ends(Some(0), Some(n - 1))
  }

  /** `h` is the first position of `s` whose element satisfies `keep`, or `None` when there is none. */
  ghost predicate IsFirst<T>(s: seq<T>, keep: T -> bool, h: Option<nat>)
  {
    match h
    case None => forall k :: 0 <= k < |s| ==> !keep(s[k])
    case Some(k) => k < |s| && keep(s[k]) && forall j :: 0 <= j < k ==> !keep(s[j])
  }

  /** `t` is the last position of `s` whose element satisfies `keep`, or `None` when there is none. */
  ghost predicate IsLast<T>(s: seq<T>, keep: T -> bool, t: Option<nat>)
  {
    match t
    case None => forall k :: 0 <= k < |s| ==> !keep(s[k])
    case Some(k) => k < |s| && keep(s[k]) && forall j :: k < j < |s| ==> !keep(s[j])
  }

  /** `e` is a cell at or after position `i` that the walk drops: only such an end may be moved. */
  predicate Dropped<T>(s: seq<T>, keep: T -> bool, i: nat, e: Option<nat>)
  {
    e.Some? && i <= e.value < |s| && !keep(s[e.value])
  }

  /** The position after `i` in the unvisited part of the chain, `None` after the last one. */
  function NextPos(n: nat, i: nat): Option<nat>
  {
    if i + 1 < n then Some(i + 1) else None
  }

  /**
   * The repaired walk, from position `i` with ends `ends`, over a chain
   * holding `s`: `last` is the last position kept so far, which is the
   * dropped cell's backward neighbour. A dropped head moves to the next
   * cell and a dropped tail moves back to `last`.
   */
  function RetainEnds<T>(s: seq<T>, keep: T -> bool, i: nat, last: Option<nat>, ends: Ends): (r: Ends)
    requires i <= |s|
    ensures r.head != ends.head ==> Dropped(s, keep, i, ends.head)
    ensures r.tail != ends.tail ==> Dropped(s, keep, i, ends.tail)
    decreases |s| - i
  {
    if i == |s| then ends
    else if keep(s[i]) then RetainEnds(s, keep, i + 1, Some(i), ends)
    else
      var head := if ends.head == Some(i) then NextPos(|s|, i) else ends.head;
      var tail := if ends.tail == Some(i) then last else ends.tail;
      RetainEnds(s, keep, i + 1, last, Ends(head, tail))
  }

  /**
   * The invariant of the repaired walk after `i` positions: `last` is the
   * last kept one; `head` is the first kept one, or the next unvisited
   * position when nothing has been kept yet; `tail` is still the last cell
   * while that is unvisited.
   */
  lemma {:induction false} RetainEndsWalk<T>(s: seq<T>, keep: T -> bool, i: nat, last: Option<nat>, ends: Ends)
    requires i <= |s| && IsLast(s[..i], keep, last)
    requires IsFirst(s[..i], keep, None) ==> ends.head == (if i < |s| then Some(i) else None)
    requires !IsFirst(s[..i], keep, None) ==> IsFirst(s[..i], keep, ends.head)
    requires i < |s| ==> ends.tail == Some(|s| - 1)
    requires i == |s| ==> ends.tail == last
    ensures var r := RetainEnds(s, keep, i, last, ends);
      IsFirst(s, keep, r.head) && IsLast(s, keep, r.tail)
    decreases |s| - i
  {
    if i == |s| {
      assert s[..i] == s;
      if !IsFirst(s, keep, None) {
        assert IsFirst(s, keep, ends.head);
      }
    } else {
      var p := s[..i + 1];
      assert forall k :: 0 <= k < i ==> p[k] == s[..i][k];
      assert p[i] == s[i];
      if keep(s[i]) {
        var head := ends.head;
        if IsFirst(s[..i], keep, None) {
          assert IsFirst(p, keep, Some(i));
        } else {
          assert IsFirst(p, keep, head);
        }
        assert IsLast(p, keep, Some(i));
        RetainEndsWalk(s, keep, i + 1, Some(i), ends);
      } else {
        var head := if ends.head == Some(i) then NextPos(|s|, i) else ends.head;
        var tail := if ends.tail == Some(i) then last else ends.tail;
        if IsFirst(s[..i], keep, None) {
          assert IsFirst(p, keep, None);
        } else {
          assert IsFirst(p, keep, head);
        }
        assert IsLast(p, keep, last);
        RetainEndsWalk(s, keep, i + 1, last, Ends(head, tail));
      }
    }
  }

  /** The repaired walk leaves `head` on the first kept cell and `tail` on the last, or both null. */
  lemma RetainEndsCorrect<T>(s: seq<T>, keep: T -> bool)
    ensures var r := RetainEnds(s, keep, 0, None, Start(|s|));
      IsFirst(s, keep, r.head) && IsLast(s, keep, r.tail)
  {
    assert s[..0] == [];
    RetainEndsWalk(s, keep, 0, None, Start(|s|));
  }

  /**
   * The walk of `retainIf` as the library writes it: a dropped tail is
   * moved to the dropped cell's forward neighbour, which is null.
   */
  function RetainEndsAsWritten<T>(s: seq<T>, keep: T -> bool, i: nat, ends: Ends): (r: Ends)
    requires i <= |s|
    ensures r.head != ends.head ==> Dropped(s, keep, i, ends.head)
    ensures r.tail != ends.tail ==> Dropped(s, keep, i, ends.tail)
    decreases |s| - i
  {
    if i == |s| then ends
    else if keep(s[i]) then RetainEndsAsWritten(s, keep, i + 1, ends)
    else
      var head := if ends.head == Some(i) then NextPos(|s|, i) else ends.head;
      var tail := if ends.tail == Some(i) then NextPos(|s|, i) else ends.tail;
      RetainEndsAsWritten(s, keep, i + 1, Ends(head, tail))
  }

  /**
   * With the library's rule, whenever `retainIf` drops the last cell but
   * keeps an earlier one, the list is left non-empty with a null tail.
   */
  lemma {:induction false} RetainTailLost<T>(s: seq<T>, keep: T -> bool, i: nat, ends: Ends)
    requires i < |s| && !keep(s[|s| - 1]) && ends.tail == Some(|s| - 1)
    ensures RetainEndsAsWritten(s, keep, i, ends).tail == None
    decreases |s| - i
  {
    var head := if ends.head == Some(i) then NextPos(|s|, i) else ends.head;
    var tail := if ends.tail == Some(i) then NextPos(|s|, i) else ends.tail;
    if i + 1 < |s| {
      if keep(s[i]) {
        RetainTailLost(s, keep, i + 1, ends);
      } else {
        RetainTailLost(s, keep, i + 1, Ends(head, tail));
      }
    }
  }

  /** The smallest case: keeping 1 in [1, 2] leaves a null tail although 1 is still in the list. */
  lemma RetainTailLostExample()
    ensures var keep := (x: int) => x == 1;
      RetainEndsAsWritten([1, 2], keep, 0, Start(2)) == Ends(Some(0), None)
      && IsLast([1, 2], keep, Some(0)) && !IsLast([1, 2], keep, None)
  {
    var keep := (x: int) => x == 1;
    RetainTailLost([1, 2], keep, 0, Start(2));
    assert keep([1, 2][0]);
  }

  /**
   * The walk of `removeIf` as the library writes it: it unlinks and deletes
   * the cells `discard` selects but never moves either end, whatever it
   * deletes.
   */
  function RemoveEndsAsWritten<T>(s: seq<T>, discard: T -> bool, ends: Ends): Ends
  {
    ends
  }

  /**
   * With the library's rule, whenever `removeIf` deletes the first cell,
   * `head` is left on that deleted cell; the repaired walk never leaves it
   * there.
   */
  lemma RemoveHeadDangling<T>(s: seq<T>, discard: T -> bool)
    requires |s| > 0 && discard(s[0])
    ensures RemoveEndsAsWritten(s, discard, Start(|s|)).head == Some(0)
    ensures RetainEnds(s, x => !discard(x), 0, None, Start(|s|)).head != Some(0)
  {
    RetainEndsCorrect(s, x => !discard(x));
  }

  /**
   * With the library's rule, whenever `removeIf` deletes the last cell,
   * `tail` is left on that deleted cell; the repaired walk never leaves it
   * there.
   */
  lemma RemoveTailDangling<T>(s: seq<T>, discard: T -> bool)
    requires |s| > 0 && discard(s[|s| - 1])
    ensures RemoveEndsAsWritten(s, discard, Start(|s|)).tail == Some(|s| - 1)
    ensures RetainEnds(s, x => !discard(x), 0, None, Start(|s|)).tail != Some(|s| - 1)
  {
    RetainEndsCorrect(s, x => !discard(x));
  }

  /**
   * The smallest case: removing 1 from [1, 2] leaves `head` on the deleted
   * cell, where the repaired walk moves it to the cell holding 2.
   */
  lemma RemoveHeadDanglingExample()
    ensures var discard := (x: int) => x == 1;
      && RemoveEndsAsWritten([1, 2], discard, Start(2)).head == Some(0) && discard([1, 2][0])
      && RetainEnds([1, 2], x => !discard(x), 0, None, Start(2)).head == Some(1)
  {
    var discard := (x: int) => x == 1;
    RetainEndsCorrect([1, 2], x => !discard(x));
  }
}
