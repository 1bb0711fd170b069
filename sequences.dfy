/** Order-preserving selection from a sequence: the list comprehensions and the
    "append inside a loop when a test passes" pattern that both helper modules use. */
module Sequences {

  /** The elements of `s` that pass `keep`, in their original order
      (Python's `[x for x in s if keep(x)]`). */
  function Filter<T>(s: seq<T>, keep: T -> bool): (r: seq<T>)
    ensures |r| <= |s|
    ensures forall k :: 0 <= k < |r| ==> keep(r[k])
  {
    if s == [] then []
    else Filter(s[..|s| - 1], keep) + (if keep(s[|s| - 1]) then [s[|s| - 1]] else [])
  }

  /** The positions of `s` whose element passes `keep`, in increasing order. */
  function KeptIndices<T>(s: seq<T>, keep: T -> bool): (idx: seq<nat>)
    ensures forall k :: 0 <= k < |idx| ==> idx[k] < |s| && keep(s[idx[k]])
    ensures forall k, l :: 0 <= k < l < |idx| ==> idx[k] < idx[l]
    ensures forall i :: 0 <= i < |s| && keep(s[i]) ==> i in idx
  {
    if s == [] then []
    else
      var idx := KeptIndices(s[..|s| - 1], keep);
      assert forall i :: 0 <= i < |s| - 1 ==> s[..|s| - 1][i] == s[i];
      idx + (if keep(s[|s| - 1]) then [|s| - 1] else [])
  }

  /** Filter keeps exactly the elements at the kept positions, in order, each once:
      the k-th element of the result is the element at the k-th kept position. */
  lemma {:induction false} FilterAtKeptIndices<T>(s: seq<T>, keep: T -> bool)
    ensures |Filter(s, keep)| == |KeptIndices(s, keep)|
    ensures forall k :: 0 <= k < |Filter(s, keep)| ==> Filter(s, keep)[k] == s[KeptIndices(s, keep)[k]]
  {
    if s != [] {
      var init, last := s[..|s| - 1], s[|s| - 1];
      FilterAtKeptIndices(init, keep);
      var f, idx := Filter(init, keep), KeptIndices(init, keep);
      assert forall i :: 0 <= i < |init| ==> init[i] == s[i];
      if keep(last) {
        assert Filter(s, keep) == f + [last];
        assert KeptIndices(s, keep) == idx + [|s| - 1];
      } else {
        assert Filter(s, keep) == f && KeptIndices(s, keep) == idx;
      }
    }
  }

  /** Lines that end, after `m` lines, with one entry `f(x)` per element `x` that passes
      `keep`: the line at `m + k` is `f` of the element at the k-th kept position. */
  lemma {:induction false} AfterKept<T, U>(lines: seq<U>, front: seq<U>, m: nat, back: seq<U>, s: seq<T>, keep: T -> bool, f: T -> U)
    requires |front| == m && lines == front + back
    requires |back| == |Filter(s, keep)|
    requires forall k :: 0 <= k < |back| ==> back[k] == f(Filter(s, keep)[k])
    ensures var idx := KeptIndices(s, keep);
      |lines| == m + |idx|
      && forall k :: 0 <= k < |idx| ==> lines[m + k] == f(s[idx[k]])
  {
    assert forall k :: 0 <= k < |back| ==> lines[m + k] == back[k];
    FilterAtKeptIndices(s, keep);
  }

  /** An element of `s` that passes `keep` is in the filtered sequence, and every
      element of the filtered sequence comes from `s`. */
  lemma {:induction false} FilterMembership<T>(s: seq<T>, keep: T -> bool, x: T)
    ensures x in Filter(s, keep) <==> x in s && keep(x)
  {
    if s != [] {
      var init := s[..|s| - 1];
      FilterMembership(init, keep, x);
      assert s == init + [s[|s| - 1]];
    }
  }

  /** Filtering is taken one element at a time: the filter of a sequence extended
      by one element is the old filter, extended by that element when it passes. */
  lemma FilterSnoc<T>(s: seq<T>, x: T, keep: T -> bool)
    ensures Filter(s + [x], keep) == Filter(s, keep) + (if keep(x) then [x] else [])
  {
    assert (s + [x])[..|s|] == s;
  }
}
