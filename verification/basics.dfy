/** Small sequence helpers shared by the layout modules. */
module Basics {

  /** A value that may be absent, as `undefined` is in the sketch. */
  datatype Option<T> = None | Some(value: T)

  /** No element occurs twice. */
  predicate Distinct<T(==)>(s: seq<T>) {
    forall i, j :: 0 <= i < j < |s| ==> s[i] != s[j]
  }

  /** Position of the first occurrence of `x` in `s`, or `|s|` when it does not occur
      (the index a linear search such as `find` stops at). */
  function IndexOf<T(==)>(s: seq<T>, x: T): (k: nat)
    ensures k <= |s|
    ensures k < |s| ==> s[k] == x
    ensures forall i :: 0 <= i < k ==> s[i] != x
    ensures k == |s| <==> x !in s
  {
    if |s| == 0 then 0
    else if s[0] == x then 0
    else 1 + IndexOf(s[1..], x)
  }

  /** In a sequence without repeats, an element's first occurrence is its position. */
  lemma DistinctIndexOf<T>(s: seq<T>, a: nat)
    requires Distinct(s) && a < |s|
    ensures IndexOf(s, s[a]) == a
  {
  }

  /** Appending an element does not move the first occurrence of one already present. */
  lemma {:induction false} IndexOfAppend<T>(s: seq<T>, x: T, y: T)
    requires y in s
    ensures IndexOf(s + [x], y) == IndexOf(s, y)
  {
    if s[0] != y {
      assert (s + [x])[1..] == s[1..] + [x];
      IndexOfAppend(s[1..], x, y);
    }
  }

  /** The distinct elements of `s` in order of first appearance: the iteration order of
      a JavaScript `Set` built from `s`. */
  function Dedup<T(==)>(s: seq<T>): (u: seq<T>)
    ensures Distinct(u)
    ensures forall a :: 0 <= a < |u| ==> u[a] in s
    ensures forall i :: 0 <= i < |s| ==> s[i] in u
    ensures forall a, b :: 0 <= a < b < |u| ==> IndexOf(s, u[a]) < IndexOf(s, u[b])
    decreases |s|
  {
    if |s| == 0 then []
    else
      var p := s[..|s| - 1];
      var x := s[|s| - 1];
      assert s == p + [x];
      var d := Dedup(p);
      DedupKeepsOrder(p, x, d);
      if x in d then d else d + [x]
  }

  /** Helper for `Dedup`: first-appearance positions in `p + [x]` agree with those in `p`,
      and a new element `x` appears after all of them. */
  lemma DedupKeepsOrder<T>(p: seq<T>, x: T, d: seq<T>)
    requires forall a :: 0 <= a < |d| ==> d[a] in p
    requires forall a, b :: 0 <= a < b < |d| ==> IndexOf(p, d[a]) < IndexOf(p, d[b])
    ensures forall a :: 0 <= a < |d| ==> IndexOf(p + [x], d[a]) == IndexOf(p, d[a]) < |p|
    ensures x !in p ==> IndexOf(p + [x], x) == |p|
  {
    forall a | 0 <= a < |d|
      ensures IndexOf(p + [x], d[a]) == IndexOf(p, d[a]) < |p|
    {
      assert d[a] in p;
      IndexOfAppend(p, x, d[a]);
    }
    if x !in p {
      assert (p + [x])[|p|] == x;
      assert forall i :: 0 <= i < |p| ==> (p + [x])[i] == p[i];
    }
  }

  /** The positions of the elements of `s` that satisfy `p`, in increasing order: the elements a
      loop over `s` would push, given by their positions. */
  function Where<T>(s: seq<T>, p: T -> bool): (idx: seq<nat>)
    ensures forall k :: 0 <= k < |idx| ==> idx[k] < |s| && p(s[idx[k]])
    ensures forall i :: 0 <= i < |s| && p(s[i]) ==> i in idx
    ensures forall a, b :: 0 <= a < b < |idx| ==> idx[a] < idx[b]
    decreases |s|
  {
    if |s| == 0 then []
    else
      var n := |s| - 1;
      var w := Where(s[..n], p);
      assert forall i :: 0 <= i < n ==> s[..n][i] == s[i];
      if p(s[n]) then w + [n] else w
  }

  /** Splitting by a predicate and by its negation accounts for every position once. */
  lemma WhereSplit<T>(s: seq<T>, p: T -> bool, q: T -> bool)
    requires forall i :: 0 <= i < |s| ==> q(s[i]) == !p(s[i])
    ensures |Where(s, p)| + |Where(s, q)| == |s|
  {
    WhereCount(s, p);
    WhereCount(s, q);
    CountSplit(s, p, q);
  }

  /** How many elements of `s` satisfy `p`. */
  function Count<T>(s: seq<T>, p: T -> bool): nat {
    if |s| == 0 then 0 else Count(s[..|s| - 1], p) + (if p(s[|s| - 1]) then 1 else 0)
  }

  lemma {:induction false} WhereCount<T>(s: seq<T>, p: T -> bool)
    ensures |Where(s, p)| == Count(s, p)
    decreases |s|
  {
    if |s| > 0 {
      WhereLast(s, p);
      WhereCount(s[..|s| - 1], p);
    }
  }

  lemma {:induction false} CountSplit<T>(s: seq<T>, p: T -> bool, q: T -> bool)
    requires forall i :: 0 <= i < |s| ==> q(s[i]) == !p(s[i])
    ensures Count(s, p) + Count(s, q) == |s|
    decreases |s|
  {
    if |s| > 0 {
      var t := s[..|s| - 1];
      assert forall i :: 0 <= i < |t| ==> t[i] == s[i];
      CountSplit(t, p, q);
    }
  }

  /** The last element adds its own position, or nothing. */
  lemma WhereLast<T>(s: seq<T>, p: T -> bool)
    requires |s| > 0
    ensures |Where(s, p)| == |Where(s[..|s| - 1], p)| + (if p(s[|s| - 1]) then 1 else 0)
  {
  }
}
