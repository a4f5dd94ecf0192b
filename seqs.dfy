/**
 * Order-preserving selection over sequences: the meaning of a boolean-mask
 * filter `df[mask]` followed by `reset_index(drop=True)`.
 */
module Seqs {

  /** The elements of `s` that `keep` retains, in their original order. */
  function Filter<T(!new)>(s: seq<T>, keep: T -> bool): (r: seq<T>)
    ensures |r| <= |s|
    ensures forall x :: x in r <==> x in s && keep(x)
  {
    if s == [] then []
    else
      assert s == [s[0]] + s[1..];
      if keep(s[0]) then [s[0]] + Filter(s[1..], keep) else Filter(s[1..], keep)
  }

  /** How many elements of `s` satisfy `p`. */
  function CountWhere<T>(s: seq<T>, p: T -> bool): (n: nat)
    ensures n <= |s|
  {
    if s == [] then 0 else (if p(s[0]) then 1 else 0) + CountWhere(s[1..], p)
  }

  /** The positions from `i` on whose element `keep` retains, in increasing order. */
  function SelectionFrom<T>(s: seq<T>, keep: T -> bool, i: nat): (idx: seq<nat>)
    requires i <= |s|
    ensures forall k :: 0 <= k < |idx| ==> i <= idx[k] < |s|
    ensures forall k, l :: 0 <= k < l < |idx| ==> idx[k] < idx[l]
    decreases |s| - i
  {
    if i == |s| then []
    else if keep(s[i]) then [i] + SelectionFrom(s, keep, i + 1)
    else SelectionFrom(s, keep, i + 1)
  }

  /** SelectionFrom picks exactly the positions whose element `keep` retains. */
  lemma {:induction false} SelectionFromExact<T>(s: seq<T>, keep: T -> bool, i: nat)
    requires i <= |s|
    ensures forall j :: i <= j < |s| ==> (j in SelectionFrom(s, keep, i) <==> keep(s[j]))
    decreases |s| - i
  {
    if i < |s| {
      SelectionFromExact(s, keep, i + 1);
    }
  }

  /** The k-th position SelectionFrom picks holds the k-th element of the filtered suffix. */
  lemma {:induction false} SelectionFromAligned<T(!new)>(s: seq<T>, keep: T -> bool, i: nat)
    requires i <= |s|
    ensures |SelectionFrom(s, keep, i)| == |Filter(s[i..], keep)|
    ensures forall k :: 0 <= k < |SelectionFrom(s, keep, i)| ==>
      Filter(s[i..], keep)[k] == s[SelectionFrom(s, keep, i)[k]]
    decreases |s| - i
  {
    if i < |s| {
      SelectionFromAligned(s, keep, i + 1);
      assert s[i..] == [s[i]] + s[i + 1..];
      assert s[i..][1..] == s[i + 1..];
    }
  }

  /**
   * The positions of `s` that Filter keeps: strictly increasing, exactly the
   * positions whose element `keep` retains, and the k-th of them holds the
   * k-th element of the filtered sequence.
   */
  function Selection<T(!new)>(s: seq<T>, keep: T -> bool): (idx: seq<nat>)
    ensures |idx| == |Filter(s, keep)|
    ensures forall k :: 0 <= k < |idx| ==> idx[k] < |s| && Filter(s, keep)[k] == s[idx[k]]
    ensures forall k, l :: 0 <= k < l < |idx| ==> idx[k] < idx[l]
    ensures forall i :: 0 <= i < |s| ==> (i in idx <==> keep(s[i]))
  {
    assert s[0..] == s;
    SelectionFromExact(s, keep, 0);
    SelectionFromAligned(s, keep, 0);
    SelectionFrom(s, keep, 0)
  }

  lemma {:induction false} FilterConcat<T(!new)>(a: seq<T>, b: seq<T>, keep: T -> bool)
    ensures Filter(a + b, keep) == Filter(a, keep) + Filter(b, keep)
  {
    if a == [] {
      assert a + b == b;
    } else {
      assert (a + b)[1..] == a[1..] + b;
      FilterConcat(a[1..], b, keep);
    }
  }

  /** What is dropped and what is kept add up to the whole sequence. */
  lemma {:induction false} FilterLength<T(!new)>(s: seq<T>, keep: T -> bool, drop: T -> bool)
    requires forall x :: drop(x) == !keep(x)
    ensures |Filter(s, keep)| == |s| - CountWhere(s, drop)
  {
    if s != [] {
      FilterLength(s[1..], keep, drop);
    }
  }

  /** A filter that keeps every element changes nothing. */
  lemma {:induction false} FilterKeepsAll<T(!new)>(s: seq<T>, keep: T -> bool)
    requires forall x :: x in s ==> keep(x)
    ensures Filter(s, keep) == s
  {
    if s != [] {
      assert s == [s[0]] + s[1..];
      FilterKeepsAll(s[1..], keep);
    }
  }

  /** Filtering twice with the same mask is filtering once. */
  lemma FilterIdempotent<T(!new)>(s: seq<T>, keep: T -> bool)
    ensures Filter(Filter(s, keep), keep) == Filter(s, keep)
  {
    FilterKeepsAll(Filter(s, keep), keep);
  }

  /** Replacing an element that the filter drops by another it drops leaves the result alone. */
  lemma {:induction false} FilterUpdateDropped<T(!new)>(s: seq<T>, i: nat, x: T, keep: T -> bool)
    requires i < |s| && !keep(s[i]) && !keep(x)
    ensures Filter(s[i := x], keep) == Filter(s, keep)
  {
    if i > 0 {
      assert s[i := x][1..] == s[1..][i - 1 := x];
      FilterUpdateDropped(s[1..], i - 1, x, keep);
    } else {
      assert s[i := x][1..] == s[1..];
    }
  }
}
