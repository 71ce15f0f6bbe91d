/** Order-preserving selection over sequences, shared by the store, the peer list and the poller. */
module Seqs {
  import opened Wrappers

  /** `r` can be obtained from `s` by deleting elements, keeping the order of the rest. */
  predicate IsSubsequence<T(==)>(r: seq<T>, s: seq<T>)
    decreases |s|
  {
    if |r| == 0 then true
    else if |s| == 0 then false
    else if r[0] == s[0] then IsSubsequence(r[1..], s[1..])
    else IsSubsequence(r, s[1..])
  }

  /** The elements of `s` that satisfy `p`, in their original order. */
  function Filter<T(==)>(p: T -> bool, s: seq<T>): (r: seq<T>)
    ensures |r| <= |s|
    ensures forall i :: 0 <= i < |r| ==> r[i] in s && p(r[i])
    ensures forall i :: 0 <= i < |s| && p(s[i]) ==> s[i] in r
    ensures IsSubsequence(r, s)
  {
    if |s| == 0 then []
    else if p(s[0]) then [s[0]] + Filter(p, s[1..])
    else Filter(p, s[1..])
  }

  /** The least index whose element satisfies `p`, if any. */
  function FirstIndex<T>(p: T -> bool, s: seq<T>): (r: Option<nat>)
    ensures r.Some? ==> r.value < |s| && p(s[r.value]) && forall j :: 0 <= j < r.value ==> !p(s[j])
    ensures r.None? ==> forall j :: 0 <= j < |s| ==> !p(s[j])
  {
    if |s| == 0 then None
    else if p(s[0]) then Some(0)
    else match FirstIndex(p, s[1..])
      case None => None
      case Some(i) => Some(i + 1)
  }

  /** Every element of `s` is preserved by a filter that keeps it. */
  lemma FilterKeepsAll<T>(p: T -> bool, s: seq<T>)
    requires forall i :: 0 <= i < |s| ==> p(s[i])
    ensures Filter(p, s) == s
  {
  }

  /** The tail of a sequence, indexed one position earlier. */
  lemma TailIndex<T>(s: seq<T>, i: nat)
    requires 0 < i < |s|
    ensures s[1..][i - 1] == s[i]
  {
  }

  /** A relation that holds position by position between `xs` and `ys` holds between `xs` and
      `y` before `ys` as well, when it holds at the head. */
  lemma PointwiseCons<A, B>(rel: (A, B) -> bool, xs: seq<A>, y: B, ys: seq<B>)
    requires 0 < |xs| && rel(xs[0], y) && |ys| < |xs|
    requires forall i :: 0 <= i < |ys| ==> rel(xs[1..][i], ys[i])
    ensures forall i :: 0 <= i < |ys| + 1 ==> rel(xs[i], ([y] + ys)[i])
  {
    forall i | 0 < i < |ys| + 1 ensures rel(xs[i], ([y] + ys)[i]) {
      TailIndex(xs, i);
    }
  }

  /** `FirstIndex` finds the index of the first element that satisfies `p`. */
  lemma FirstIndexIs<T>(p: T -> bool, s: seq<T>, n: nat)
    requires n < |s| && p(s[n]) && forall j :: 0 <= j < n ==> !p(s[j])
    ensures FirstIndex(p, s) == Some(n)
  {
  }

  /** Filtering a list extended by one element extends the filtered list by that element exactly
      when it is kept: the step of a loop that builds the filtered list in order. */
  lemma {:induction false} FilterSnoc<T>(p: T -> bool, s: seq<T>, x: T)
    ensures Filter(p, s + [x]) == Filter(p, s) + (if p(x) then [x] else [])
    decreases |s|
  {
    if |s| == 0 {
      assert s + [x] == [x];
      assert [x][1..] == [];
    } else {
      assert (s + [x])[0] == s[0];
      assert (s + [x])[1..] == s[1..] + [x];
      FilterSnoc(p, s[1..], x);
    }
  }
}
