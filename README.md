# A verified model of the own-stl linked list

This project models the core of a small C++ container library: the
doubly-linked list `List<T>`, its cell `details::Node<T>`, and the two
adapters built on it, `Queue<T>` and `Stack<T>`. The model is imperative
Dafny, written the way the library is.

- A `Node` is a class with a constant `value` and mutable `back` and `next`
  links. Its relinking primitives update those fields in place.
- A `List` is a class with `head`, `tail` and `len`, like the library's.
  It also has three ghost fields:
  - `nodes`, the chain of cells from head to tail;
  - `Contents`, the values of those cells (the list's abstract value);
  - `Repr`, the cells the list owns.
- `List.Valid()` is the representation invariant:
  - the cells are distinct and `len` counts them;
  - each cell links forward to the next one, which links back to it;
  - `head.back` and `tail.next` are null;
  - `head` and `tail` are both null exactly when the list is empty.
- Every operation preserves `Valid()`. Its contract gives the new `Contents`
  in terms of the old one, using the functions of `sequences.dfy`. The
  properties the library documents are proved about those functions:
  - reversal is an involution;
  - a second filter pass removes nothing;
  - keeping by `p` and removing by `p` split the elements between them;
  - `findAll` reports exactly the matching positions, in increasing order;
  - every window result is `f` of the right run.
- Appending a non-empty list to itself follows the library's steps with
  the two lists the same. The tail is linked to the head, closing the chain
  into a cycle, and then the list, in its role as the emptied argument, gets
  a zero length and null ends. So `l.append(l)` leaves `l` empty. A queue
  appended to itself ends empty the same way, and so does a stack, which is
  reversed first.
- `Queue` and `Stack` each hold one `List` and forward every operation to
  it. Their contracts state FIFO and LIFO behaviour over the list's
  `Contents`.
- Two lists that own different cells are kept apart by `Repr` disjointness.
  `append` and `sliceOff` move cells from one `Repr` to the other.

Files:

- `sequences.dfy`: module `Sequences`, the pure specification functions and
  their lemmas.
- `nodes.dfy`: module `ListNodes`, the `Node` class and the predicates
  describing chains of cells.
- `list.dfy`: module `LinkedLists`, the `List` class and its proof steps,
  plus a few worked examples.
- `queue.dfy`: module `Queues`.
- `stack.dfy`: module `Stacks`.
- `ends.dfy`: module `FilterEnds`, how much the filtering walks move the two
  ends of the list (see "## Findings").

## Where the model follows the code's intent rather than its text

Some places in `include/list.hpp` would not compile if instantiated, or
would corrupt the list. The model implements what the documentation and
the surrounding code evidently intend.

- `remove` (list.hpp:822-842) has a bare `return;` on its first-element and
  last-element branches. The model returns the popped value there, as on the
  interior branch.
- `append` (list.hpp:996) and `reverse` (list.hpp:1070) call
  `isEmpty()`, which does not exist. The model uses `empty()`.
- `sliceOff` (list.hpp:1028-1063) stores the last cut cell in `_end`, which
  is not a member. It also never updates the source list's `_len`, `head` or
  `tail`. In the model the slice's `tail` is the last cut cell, and the
  source list's length and ends are repaired.
- `rfind` (list.hpp:773) starts from `this->tail - skip`, which is pointer
  arithmetic on a raw pointer. The model walks `skip` cells back from the
  tail, as `find` walks forward with the node's `operator+`.
- `retainIf` and `removeIf` (list.hpp:900, 971) pass the cell `*it` to a
  filter that takes `const T&`. The model passes the cell's value.
- The filtering walks `retainIf` and `removeIf` leave an end of the list on
  a wrong cell (see "## Findings"). The model repairs both ends as `Drop`
  does.

## Model

| member | source | states |
|---|---|---|
| ListNodes.Node.constructor | include/list.hpp:78-82 | a new cell holds the value and has null links |
| ListNodes.Node.WithLinks | include/list.hpp:64-68 | a new cell holds the value and the given links; the neighbours are untouched |
| ListNodes.Node.SetNext | include/list.hpp:154 | only the forward link changes |
| ListNodes.Node.SetBack | include/list.hpp:127 | only the backward link changes |
| ListNodes.Node.Reverse | include/list.hpp:161 | the cell's two links are exchanged |
| ListNodes.Node.Unlink | include/list.hpp:300-310 | the neighbours are joined to each other and the cell's links become null |
| ListNodes.Node.LinkNext | include/list.hpp:204-218 | a detached cell is placed after this one, between it and its old next cell; a null argument or this cell changes nothing |
| ListNodes.Node.LinkBack | include/list.hpp:260-274 | the mirror image: the cell is placed before this one |
| ListNodes.Node.Advance | include/list.hpp:362-368 | `node + k` is the cell `k` places further along the chain |
| ListNodes.Node.Retreat | include/list.hpp:398-404 | `node - k` is the cell `k` places back along the chain |
| ListNodes.FlipAll | include/list.hpp:1076-1078 | reversing every cell while walking its new backward link visits the whole chain and swaps every cell's links |
| ListNodes.Unchain | include/list.hpp:1042-1053 | the run from `startNode` to `endNode` is detached: its outer neighbours are joined and its outer links are null |
| ListNodes.Link | include/list.hpp:1007-1008 | linking the tail of one chain to the head of another gives one chain of distinct cells |
| LinkedLists.List.constructor | include/list.hpp:456-460 | a new list is valid and empty |
| LinkedLists.List.Copy | include/list.hpp:471-477 | the copy has the same elements, in cells of its own |
| LinkedLists.List.Empty | include/list.hpp:495 | true exactly when there are no elements |
| LinkedLists.List.Len | include/list.hpp:504 | the number of elements |
| LinkedLists.List.Front | include/list.hpp:515-526 | the first element |
| LinkedLists.List.Back | include/list.hpp:573-584 | the last element |
| LinkedLists.List.PushFront | include/list.hpp:593-604 | the value becomes the first element and the rest follow unchanged |
| LinkedLists.List.PopFront | include/list.hpp:615-630 | on a non-empty list: returns the first element and leaves the rest |
| LinkedLists.List.PushBack | include/list.hpp:639-650 | the value becomes the last element after the old ones |
| LinkedLists.List.PopBack | include/list.hpp:661-676 | on a non-empty list: returns the last element and leaves the ones before it |
| LinkedLists.List.AtNode | include/list.hpp:1579-1594 | the cell at the position, whichever end the walk starts from; `operator[]` (list.hpp:1344-1357) reads its value |
| LinkedLists.List.At | include/list.hpp:538-562 | the element at the position, or the out-of-range failure when the position is not below the length |
| LinkedLists.List.InsertBackward | include/list.hpp:698 | the value lands at the position, in front of the element there; past the end it is appended |
| LinkedLists.List.InsertForward | include/list.hpp:687 | the value lands right after the element at the position; past the end it is appended |
| LinkedLists.List.Insert | include/list.hpp:1639-1662 | the value lands at `InsertPosition` and the other elements keep their order |
| LinkedLists.InsertPosition | include/list.hpp:1640-1651 | where an insertion puts the value: at the position when inserting backward, after it when inserting forward, at the end past the last position |
| LinkedLists.List.LinkBefore | include/list.hpp:1653-1655 | an interior backward insertion puts the value at the position |
| LinkedLists.List.LinkAfter | include/list.hpp:1656-1657 | an interior forward insertion puts the value after the position |
| LinkedLists.List.Find | include/list.hpp:738-755 | the least position at or after `skip` holding the value, or `NO_POS` exactly when there is none |
| LinkedLists.List.RFind | include/list.hpp:765-782 | the greatest position at or below `len - 1 - skip` holding the value, or `NO_POS` exactly when there is none |
| LinkedLists.List.Contains | include/list.hpp:708 | true exactly when the value occurs |
| LinkedLists.List.ContainsAll | include/list.hpp:720-728 | true exactly when every element of the other list occurs in this one |
| LinkedLists.List.FindAll | include/list.hpp:791-806 | a new list of exactly the matching positions, in increasing order |
| LinkedLists.List.Remove | include/list.hpp:822-842 | on a non-empty list: removes and returns the element at the position, or the last one when the position is at or past the end |
| LinkedLists.List.Drop | include/list.hpp:903-916 | one removal step of the filtering walks: the cell goes out of the chain, and `head` and `tail` are repaired when it was an end |
| LinkedLists.List.Sift | include/list.hpp:899-917 | one step of a filtering walk (and of `removeIf`, list.hpp:969-982): the visited cell stays when it satisfies the predicate and is dropped otherwise, the survivors so far hold the filter of the visited values, and the walk moves to the next original cell |
| LinkedLists.List.RetainIf | include/list.hpp:895-917 | exactly the elements satisfying the predicate remain, in order; the result is how many were removed |
| LinkedLists.List.RemoveIf | include/list.hpp:966-985 | exactly the elements not satisfying the predicate remain, in order; the result is how many were removed |
| LinkedLists.RetainIfTwice | include/list.hpp:895-917 | a second `retainIf` with the same predicate removes nothing |
| LinkedLists.List.Append | include/list.hpp:995-1014 | for two different lists, this list's elements are followed by the other's and the other list is left empty; the cells move without copying; a list appended to itself is left empty |
| LinkedLists.List.Join | include/list.hpp:1005-1014 | two non-empty different lists: the chains are linked, this list holds both lists' elements in order and the other list is empty, with the cells moved between their footprints |
| LinkedLists.List.SelfJoin | include/list.hpp:1005-1014 | the same steps on one non-empty list: it ends valid, with no elements and no cells |
| LinkedLists.SelfAppendExample | include/list.hpp:995-1014 | appending [1, 2] to itself leaves an empty list |
| LinkedLists.List.Absorb | include/list.hpp:1005-1014 | after the chains are linked, this list takes over the other's length, tail and cells, and the other list is empty |
| LinkedLists.List.SliceOff | include/list.hpp:1028-1063 | both bounds are clamped to the length; a non-empty range is cut out and handed back, an empty one gives an empty list and changes nothing |
| LinkedLists.List.FromRun | include/list.hpp:1056-1060 | a chain of `n` linked cells from `first` to `last` becomes a valid list holding their values and owning those cells |
| LinkedLists.List.Cut | include/list.hpp:1039-1063 | the cut list holds the run, and this list holds what is before and after it |
| LinkedLists.SliceOffExample | include/list.hpp:1028-1063 | slicing positions 1 to 2 off [1, 2, 3, 4] gives [2, 3] and leaves [1, 4] |
| LinkedLists.FindAllExample | include/list.hpp:791-806 | the positions of 2 in [2, 5, 2, 7, 2] are [0, 2, 4] |
| LinkedLists.List.Reverse | include/list.hpp:1069-1080 | the elements are reversed in place; the cells the list owns are the same |
| LinkedLists.ReverseTwice | include/list.hpp:1069-1080 | reversing twice gives back the original order |
| LinkedLists.List.Clear | include/list.hpp:1088-1100 | no elements are left |
| LinkedLists.List.Swap | include/list.hpp:1108-1117 | two different lists exchange their elements and cells; a list swapped with itself is unchanged |
| LinkedLists.List.Fold | include/list.hpp:1214-1221 | the accumulator after feeding every element to the action, front to back, is the left fold |
| LinkedLists.List.Window | include/list.hpp:1307-1331 | a new list with one result per run of `n` consecutive elements |
| LinkedLists.ShiftIn | include/list.hpp:1317-1320 | the buffer moves down one slot and the value goes into the last slot |
| LinkedLists.Slide | include/list.hpp:1316-1328 | one step of the window pass keeps the buffer holding the latest elements and the results matching the windows seen so far |
| LinkedLists.List.Concat | include/list.hpp:1366-1377 | a new list of this list's elements followed by the other's |
| LinkedLists.List.AppendCopy | include/list.hpp:1387-1393 | copies of the other list's elements follow this list's; the other list is untouched |
| LinkedLists.List.Equals | include/list.hpp:1403-1425 | true exactly when the two lists hold the same elements in the same order |
| LinkedLists.List.Assign | include/list.hpp:1445-1471 | this list becomes a copy of the other, in new cells; assigning a list to itself changes nothing |
| Sequences.ReverseAt | include/list.hpp:1069-1080 | position `k` of the reversal holds the element `k` places from the end |
| Sequences.ReverseInvolution | include/list.hpp:1069-1080 | reversing twice gives back the sequence |
| Sequences.FilterSatisfies | include/list.hpp:895-917 | every element kept by the filter satisfies the predicate |
| Sequences.FilterKeeps | include/list.hpp:895-917 | every element satisfying the predicate is kept |
| Sequences.FilterIdempotent | include/list.hpp:895-917 | filtering a second time changes nothing |
| Sequences.FilterPartition | include/list.hpp:895-985 | `retainIf(p)` and `removeIf(p)` split the elements between them |
| Sequences.FilterAppend | include/list.hpp:895-917 | filtering distributes over concatenation |
| Sequences.MatchIndicesSpec | include/list.hpp:791-806 | the reported positions are exactly those holding the value, below the length and strictly increasing |
| Sequences.FoldLeftAppend | include/list.hpp:1214-1221 | folding a concatenation folds the second part from the first part's result |
| Sequences.WindowsAt | include/list.hpp:1307-1331 | result `k` of the window pass is `f` of the `n` elements from position `k` |
| Sequences.Clamp | include/list.hpp:1029-1034 | a bound is replaced by the length when it exceeds it |
| Queues.Queue.constructor | include/queue.hpp:30 | a new queue is empty |
| Queues.Queue.FromContainer | include/queue.hpp:23 | the queue holds a copy of the list's elements, the first one oldest |
| Queues.Queue.Copy | include/queue.hpp:39 | the queue holds a copy of the other queue's elements |
| Queues.Queue.Empty | include/queue.hpp:48 | true exactly when there are no elements |
| Queues.Queue.Len | include/queue.hpp:57 | the number of elements |
| Queues.Queue.Front | include/queue.hpp:68-79 | the oldest element |
| Queues.Queue.Back | include/queue.hpp:90-101 | the newest element |
| Queues.Queue.Push | include/queue.hpp:110 | the value joins behind every queued element |
| Queues.Queue.Pop | include/queue.hpp:121 | on a non-empty queue: returns the oldest element and removes it |
| Queues.Queue.Append | include/queue.hpp:130 | for two different queues, the other queue's elements follow this queue's and the other queue is empty; a queue appended to itself is left empty |
| Queues.Queue.Reverse | include/queue.hpp:137 | the order is reversed |
| Queues.Queue.Clear | include/queue.hpp:144 | no elements are left |
| Queues.Queue.Swap | include/queue.hpp:153 | two different queues exchange their elements; a queue swapped with itself is unchanged |
| Queues.Queue.IntoContainer | include/queue.hpp:162 | a new list holding the elements, oldest first |
| Queues.Queue.Concat | include/queue.hpp:172-174 | a new queue of this queue's elements followed by the other's |
| Queues.Queue.AppendCopy | include/queue.hpp:184-187 | copies of the other queue's elements follow this queue's |
| Queues.Queue.Equals | include/queue.hpp:197-199 | true exactly when the two queues hold the same elements in the same order |
| Queues.FirstInFirstOut | include/queue.hpp:110-121 | after pushing 1 and 2, the pops return 1 and then 2 and leave the queue empty |
| Stacks.Stack.constructor | include/stack.hpp:30 | a new stack is empty |
| Stacks.Stack.FromContainer | include/stack.hpp:23 | the stack holds a copy of the list's elements, the last one on top |
| Stacks.Stack.Copy | include/stack.hpp:39 | the stack holds a copy of the other stack's elements |
| Stacks.Stack.Empty | include/stack.hpp:48 | true exactly when there are no elements |
| Stacks.Stack.Len | include/stack.hpp:57 | the number of elements |
| Stacks.Stack.Top | include/stack.hpp:68-79 | the last element pushed |
| Stacks.Stack.Push | include/stack.hpp:88 | the value becomes the top |
| Stacks.Stack.Pop | include/stack.hpp:99 | on a non-empty stack: returns the top and removes it |
| Stacks.Stack.Append | include/stack.hpp:108-111 | for two different stacks, the other stack is reversed and moved on top of this one, so its old bottom becomes the top, and it is left empty; a stack appended to itself is left empty |
| Stacks.Stack.Reverse | include/stack.hpp:118 | the order is reversed |
| Stacks.Stack.Clear | include/stack.hpp:125 | no elements are left |
| Stacks.Stack.Swap | include/stack.hpp:134 | two different stacks exchange their elements; a stack swapped with itself is unchanged |
| Stacks.Stack.IntoContainer | include/stack.hpp:143 | a new list holding the elements, bottom first |
| Stacks.Stack.Concat | include/stack.hpp:153-155 | a new stack with the other stack's elements above this stack's |
| Stacks.Stack.AppendCopy | include/stack.hpp:165-168 | copies of the other stack's elements are pushed, bottom first |
| Stacks.Stack.Equals | include/stack.hpp:178-180 | true exactly when the two stacks hold the same elements in the same order |
| Stacks.LastInFirstOut | include/stack.hpp:88-99 | after pushing 1, 2 and 3, two pops return 3 and then 2, and 1 is on top |
| FilterEnds.RetainEnds | include/list.hpp:903-916 | the repaired end bookkeeping of a filtering walk: an end is moved only off a cell the walk drops |
| FilterEnds.RetainEndsCorrect | include/list.hpp:903-911 | with the repaired rule the walk leaves `head` on the first kept cell and `tail` on the last |
| FilterEnds.RetainEndsAsWritten | include/list.hpp:903-911 | the end bookkeeping of `retainIf` as written; an end is moved only off a cell the walk drops |
| FilterEnds.RetainTailLost | include/list.hpp:909-911 | as written, dropping the last cell leaves `tail` null, whatever cells are kept before it |
| FilterEnds.RetainTailLostExample | include/list.hpp:909-911 | keeping 1 in [1, 2] leaves a null tail on a list that still holds 1 |
| FilterEnds.RemoveEndsAsWritten | include/list.hpp:966-985 | the end bookkeeping of `removeIf` as written: neither end is moved, whatever is deleted; the two lemmas below state the consequence |
| FilterEnds.RemoveHeadDangling | include/list.hpp:966-985 | as written, whenever the first cell is deleted `head` stays on it, while the repaired walk moves it off |
| FilterEnds.RemoveTailDangling | include/list.hpp:966-985 | as written, whenever the last cell is deleted `tail` stays on it, while the repaired walk moves it off |
| FilterEnds.RemoveHeadDanglingExample | include/list.hpp:966-985 | removing 1 from [1, 2] leaves `head` on the deleted cell |

## Left out

- Stream output and input (`operator<<`, `operator>>`, list.hpp:1483-1539, and the
  queue and stack forwarders): they depend on C++ streams and on each element type's formatter.
- `Node::operator[]` (list.hpp:322-350): each branch declares a `Node` by value, initialised
  from the pointer `this + at` or `this - (-at)`, and then applies `->` to that non-pointer
  (`node->value()` at lines 325, 345 and 348, and `node->value` without a call at line 328).
  None of the branches is well-formed, so there is nothing to model.
- `List::operator!=` (list.hpp:1436), and the queue and stack `operator!=`, which forward to it:
  it compares `this`, a pointer, with a list that is taken by value.
- Queue and stack `operator=` (queue.hpp:221, stack.hpp:202): declared `const` and returning
  `bool` with no return statement.
- The `forEach` overloads (list.hpp:1130-1184): their only purpose is side effects through a
  function pointer.
- The overloads of `retainIf`, `removeIf`, `forEach` and `fold` that take a context argument:
  they only thread an extra value to the callback.
- The fixed-size `window<N>` overload (list.hpp:1271-1298): it is the same loop as the sized one
  with `n` a template parameter.
- Memory release: `delete` in the pops, `remove`, the filters and `clear`, and the destructor.
  Dafny is garbage-collected. Cells leave `Repr` instead, and `Clear` has no loop.
- `NO_POS` is the integer -1, not the `usize` maximum. Indices are unbounded naturals, so no
  `usize` wrap-around is modelled.
- The `Container` template parameter of `Queue` and `Stack` is fixed to `List`.
- Writes to elements: cell values are constant in the model. The library can change them through
  - the references that `front`, `back`, `at`, `top` and `operator[]` return;
  - the mutating `fold` overloads (list.hpp:1233-1258), whose action takes each element as `T&`;
  - the sized `window` (list.hpp:1308, 1323), which hands the action its non-const `T*` buffer.
    An action that writes to the buffer changes the later windows. The model's action only reads.
- Fold: the library's action updates the accumulator through a reference. The model's action
  returns the new accumulator.
- ListNodes.Node.LinkNext: it requires `other` to be detached. The list only ever links a new
  cell, and linking a cell from elsewhere in the chain is not modelled.
- ListNodes.Node.LinkBack: the same restriction as `LinkNext`.
- LinkedLists.List.AppendCopy: it requires the two lists to be disjoint. In the library
  `a += a` never ends, because the walk keeps meeting the cells it has just added.
- LinkedLists.List.Window: it requires `n >= 1`. With `n = 0` the library stores into
  `window[-1]`.
- LinkedLists.List.Window: the window buffer is filled with the first element at the start.
  The library's buffer is uninitialised; those slots are shifted out before any result is
  computed.
- LinkedLists.List.Assign: it is modelled as `Clear` followed by `AppendCopy`. The library
  sets `_len` first and links the new cells inline, which gives the same list.
- Front, Back, Top, PopFront, PopBack, Pop and Remove require a non-empty list. The library
  leaves an empty one undefined.

## Findings

| source | as written | input that shows it | evidently intended | confidence | as-written member | corrected member |
|---|---|---|---|---|---|---|
| include/list.hpp:871-873, 909-911 | when `retainIf` drops the tail cell it sets `tail` to that cell's `next`, which is null | [1, 2] keeping 1: the list still holds 1 but `tail` is null | `tail` moves back to the previous surviving cell | high (not executed) | FilterEnds.RetainEndsAsWritten, with FilterEnds.RetainTailLost and FilterEnds.RetainTailLostExample | FilterEnds.RetainEnds, with FilterEnds.RetainEndsCorrect; LinkedLists.List.Drop follows it |
| include/list.hpp:936-985 | `removeIf` deletes cells but never moves `head` or `tail` | [1, 2] removing 1: `head` still points at the deleted cell | a deleted head moves to the next cell and a deleted tail to the previous one | high (not executed) | FilterEnds.RemoveEndsAsWritten, with FilterEnds.RemoveHeadDangling, FilterEnds.RemoveTailDangling and FilterEnds.RemoveHeadDanglingExample | FilterEnds.RetainEnds on the negated predicate, with FilterEnds.RetainEndsCorrect; LinkedLists.List.Drop follows it |
