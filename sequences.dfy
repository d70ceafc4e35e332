/**
 * Pure functions on sequences that give the abstract meaning of the list
 * operations, together with the facts about them that the list's
 * documentation promises (reversal is an involution, filtering is
 * idempotent, ...).
 */
module Sequences {

  /** `x` clamped to `n`, the way `sliceOff` clamps its bounds to the length. */
  function Clamp(x: nat, n: nat): (r: nat)
    ensures r <= n && r <= x
    ensures r == x || r == n
  {
    if x >= n then n else x
  }

  // ---------------------------------------------------------------- reverse

  /** The elements of `s` in the opposite order. */
  function Reverse<T>(s: seq<T>): (r: seq<T>)
    ensures |r| == |s|
  {
    if s == [] then [] else Reverse(s[1..]) + [s[0]]
  }

  /** Position `k` of the reversal holds the element `k` places from the end. */
  lemma {:induction false} ReverseAt<T>(s: seq<T>, k: nat)
    requires k < |s|
    ensures Reverse(s)[k] == s[|s| - 1 - k]
  {
    if k < |s| - 1 {
      ReverseAt(s[1..], k);
    }
  }

  /** `ReverseAt` for every position at once. */
  lemma ReverseAll<T>(s: seq<T>)
    ensures forall k :: 0 <= k < |s| ==> Reverse(s)[k] == s[|s| - 1 - k]
  {
    forall k | 0 <= k < |s|
      ensures Reverse(s)[k] == s[|s| - 1 - k]
    {
      ReverseAt(s, k);
    }
  }

  /** Reversing twice gives back the original sequence. */
  lemma {:induction false} ReverseInvolution<T>(s: seq<T>)
    ensures Reverse(Reverse(s)) == s
  {
    var r := Reverse(s);
    forall k | 0 <= k < |s|
      ensures Reverse(r)[k] == s[k]
    {
      ReverseAt(r, k);
      ReverseAt(s, |s| - 1 - k);
    }
  }

  // ----------------------------------------------------------------- filter

  /** The subsequence of the elements of `s` that satisfy `p`, in order. */
  function Filter<T>(s: seq<T>, p: T -> bool): (r: seq<T>)
    ensures |r| <= |s|
  {
    if s == [] then []
    else Filter(s[..|s| - 1], p) + (if p(s[|s| - 1]) then [s[|s| - 1]] else [])
  }

  /** Every element that survives the filter satisfies the predicate. */
  lemma {:induction false} FilterSatisfies<T>(s: seq<T>, p: T -> bool)
    ensures forall k :: 0 <= k < |Filter(s, p)| ==> p(Filter(s, p)[k])
  {
    if s != [] {
      FilterSatisfies(s[..|s| - 1], p);
    }
  }

  /** Every element of `s` that satisfies the predicate survives the filter. */
  lemma {:induction false} FilterKeeps<T>(s: seq<T>, p: T -> bool)
    ensures forall k :: 0 <= k < |s| && p(s[k]) ==> s[k] in Filter(s, p)
  {
    if s != [] {
      var init := s[..|s| - 1];
      FilterKeeps(init, p);
      assert forall k :: 0 <= k < |init| ==> s[k] == init[k];
    }
  }

  /** Filtering a sequence whose elements all satisfy `p` changes nothing. */
  lemma {:induction false} FilterAll<T>(s: seq<T>, p: T -> bool)
    requires forall k :: 0 <= k < |s| ==> p(s[k])
    ensures Filter(s, p) == s
  {
    if s != [] {
      FilterAll(s[..|s| - 1], p);
    }
  }

  /** A second pass of the same filter removes nothing. */
  lemma FilterIdempotent<T>(s: seq<T>, p: T -> bool)
    ensures Filter(Filter(s, p), p) == Filter(s, p)
  {
    FilterSatisfies(s, p);
    FilterAll(Filter(s, p), p);
  }

  /**
   * Filtering by `p` and by its complement `q` splits the elements of `s`
   * between the two results.
   */
  lemma {:induction false} FilterPartition<T>(s: seq<T>, p: T -> bool, q: T -> bool)
    requires forall x :: q(x) == !p(x)
    ensures multiset(Filter(s, p)) + multiset(Filter(s, q)) == multiset(s)
    ensures |Filter(s, p)| + |Filter(s, q)| == |s|
  {
    if s != [] {
      var init, last := s[..|s| - 1], s[|s| - 1];
      FilterPartition(init, p, q);
      assert s == init + [last];
      assert multiset(s) == multiset(init) + multiset{last};
      if p(last) {
        assert Filter(s, p) == Filter(init, p) + [last] && Filter(s, q) == Filter(init, q);
      } else {
        assert Filter(s, p) == Filter(init, p) && Filter(s, q) == Filter(init, q) + [last];
      }
    }
  }

  /** Filtering distributes over concatenation. */
  lemma {:induction false} FilterAppend<T>(a: seq<T>, b: seq<T>, p: T -> bool)
    ensures Filter(a + b, p) == Filter(a, p) + Filter(b, p)
    decreases |b|
  {
    if b == [] {
      assert a + b == a;
    } else {
      var init := b[..|b| - 1];
      FilterAppend(a, init, p);
      assert (a + b)[..|a + b| - 1] == a + init;
    }
  }

  // ------------------------------------------------------------ match index

  /** The positions of `s` holding `v`, in increasing order. */
  function MatchIndices<T(==)>(s: seq<T>, v: T): seq<nat>
  {
    if s == [] then []
    else MatchIndices(s[..|s| - 1], v) + (if s[|s| - 1] == v then [|s| - 1] else [])
  }

  /**
   * The positions reported are exactly the positions of `v`, each below the
   * length, strictly increasing.
   */
  lemma {:induction false} MatchIndicesSpec<T>(s: seq<T>, v: T)
    ensures forall i :: 0 <= i < |MatchIndices(s, v)| ==> MatchIndices(s, v)[i] < |s|
    ensures forall i, j :: 0 <= i < j < |MatchIndices(s, v)| ==> MatchIndices(s, v)[i] < MatchIndices(s, v)[j]
    ensures forall k: nat :: k in MatchIndices(s, v) <==> k < |s| && s[k] == v
  {
    if s != [] {
      var init := s[..|s| - 1];
      MatchIndicesSpec(init, v);
      assert forall k :: 0 <= k < |init| ==> s[k] == init[k];
    }
  }

  // ------------------------------------------------------------------- fold

  /** Left fold: feed the elements of `s` to `f` front to back, threading `acc`. */
  function FoldLeft<T, B>(s: seq<T>, f: (T, B) -> B, acc: B): B
  {
    if s == [] then acc else FoldLeft(s[1..], f, f(s[0], acc))
  }

  /** Folding a concatenation folds the second part from the first part's result. */
  lemma {:induction false} FoldLeftAppend<T, B>(a: seq<T>, b: seq<T>, f: (T, B) -> B, acc: B)
    ensures FoldLeft(a + b, f, acc) == FoldLeft(b, f, FoldLeft(a, f, acc))
  {
    if a == [] {
      assert a + b == b;
    } else {
      FoldLeftAppend(a[1..], b, f, f(a[0], acc));
      assert (a + b)[1..] == a[1..] + b;
    }
  }

  // ----------------------------------------------------------------- window

  /**
   * The results of `f` on every run of `n` consecutive elements of `s`, from
   * the front: `|s| - n + 1` results when `|s| >= n`, none otherwise.
   */
  function Windows<T, R>(s: seq<T>, n: nat, f: seq<T> -> R): (r: seq<R>)
    requires n >= 1
    ensures |r| == if |s| >= n then |s| - n + 1 else 0
  {
    if |s| < n then [] else Windows(s[..|s| - 1], n, f) + [f(s[|s| - n..])]
  }

  /** Result `k` of the window pass is `f` applied to the `n` elements from position `k`. */
  lemma {:induction false} WindowsAt<T, R>(s: seq<T>, n: nat, f: seq<T> -> R, k: nat)
    requires n >= 1 && k + n <= |s|
    ensures Windows(s, n, f)[k] == f(s[k..k + n])
  {
    var init := s[..|s| - 1];
    if k + n < |s| {
      WindowsAt(init, n, f, k);
      assert init[k..k + n] == s[k..k + n];
    } else {
      assert s[|s| - n..] == s[k..k + n];
    }
  }
}
