/** JavaScript's array sort with a comparator that subtracts two keys, as a stable
    insertion sort. A positive comparison puts `a` after `b`, so the result runs in
    ascending `key` order; equal keys keep their input order. */
module Sorting {
  import opened Basics

  /** Keys never decrease from left to right. */
  predicate Ascending<T>(s: seq<T>, key: T -> real) {
    forall i, j :: 0 <= i < j < |s| ==> key(s[i]) <= key(s[j])
  }

  /** Puts `x` in front of the first element whose key is not below its own. */
  function Insert<T(==)>(x: T, s: seq<T>, key: T -> real): (r: seq<T>)
    ensures multiset(r) == multiset(s) + multiset{x}
    ensures |r| == |s| + 1
    ensures Ascending(s, key) ==> Ascending(r, key)
  {
    if |s| == 0 then [x]
    else if key(x) - key(s[0]) > 0.0 then
      var t := Insert(x, s[1..], key);
      InsertKeepsOrder(x, s, t, key);
      [s[0]] + t
    else
      assert Ascending(s, key) ==> Ascending([x] + s, key) by {
        if Ascending(s, key) {
          forall i, j | 0 <= i < j < |s| + 1
            ensures key(([x] + s)[i]) <= key(([x] + s)[j])
          {
            if i > 0 {
              assert key(s[i - 1]) <= key(s[j - 1]);
            } else {
              assert key(s[0]) <= key(s[j - 1]);
            }
          }
        }
      }
      [x] + s
  }

  /** Helper for `Insert`: the case where `x` goes behind the head of `s`. */
  lemma InsertKeepsOrder<T>(x: T, s: seq<T>, t: seq<T>, key: T -> real)
    requires |s| > 0 && key(x) > key(s[0])
    requires multiset(t) == multiset(s[1..]) + multiset{x}
    requires Ascending(s, key) ==> Ascending(t, key)
    ensures multiset([s[0]] + t) == multiset(s) + multiset{x}
    ensures Ascending(s, key) ==> Ascending([s[0]] + t, key)
  {
    assert s == [s[0]] + s[1..];
    if Ascending(s, key) {
      var r := [s[0]] + t;
      forall j | 0 <= j < |t|
        ensures key(s[0]) <= key(t[j])
      {
        assert t[j] in multiset(t);
        if t[j] != x {
          assert t[j] in s[1..];
          var k :| 0 <= k < |s[1..]| && s[1..][k] == t[j];
          assert s[k + 1] == t[j];
        }
      }
      forall i, j | 0 <= i < j < |r|
        ensures key(r[i]) <= key(r[j])
      {
        if i > 0 {
          assert r[i] == t[i - 1] && r[j] == t[j - 1];
        } else {
          assert r[j] == t[j - 1];
        }
      }
    }
  }

  /** The sorted rearrangement of `s`: the same elements, each as often, in ascending key
      order. */
  function SortBy<T(==)>(s: seq<T>, key: T -> real): (r: seq<T>)
    ensures multiset(r) == multiset(s)
    ensures |r| == |s|
    ensures Ascending(r, key)
    ensures forall k :: WithKey(r, key, k) == WithKey(s, key, k)
  {
    if |s| == 0 then []
    else
      assert s == [s[0]] + s[1..];
      var t := SortBy(s[1..], key);
      InsertStable(s[0], t, key);
      assert ([s[0]] + t)[1..] == t;
      Insert(s[0], t, key)
  }

  /** The elements of `s` whose key is `k`, in their order in `s`. A sort is stable when
      this subsequence is the same before and after, for every key. */
  function WithKey<T>(s: seq<T>, key: T -> real, k: real): (c: seq<T>)
    ensures |c| <= |s|
    ensures forall i :: 0 <= i < |c| ==> key(c[i]) == k
  {
    if |s| == 0 then []
    else (if key(s[0]) == k then [s[0]] else []) + WithKey(s[1..], key, k)
  }

  /** Inserting `x` leaves every key's elements in the order they have with `x` in front:
      `x` only passes elements with smaller keys. */
  lemma InsertStable<T>(x: T, s: seq<T>, key: T -> real)
    ensures forall k :: WithKey(Insert(x, s, key), key, k) == WithKey([x] + s, key, k)
  {
    forall k
      ensures WithKey(Insert(x, s, key), key, k) == WithKey([x] + s, key, k)
    {
      InsertWithKey(x, s, key, k);
    }
  }

  lemma {:induction false} InsertWithKey<T>(x: T, s: seq<T>, key: T -> real, k: real)
    ensures WithKey(Insert(x, s, key), key, k) == WithKey([x] + s, key, k)
    decreases |s|
  {
    if |s| > 0 && key(x) - key(s[0]) > 0.0 {
      var t := Insert(x, s[1..], key);
      assert Insert(x, s, key) == [s[0]] + t;
      InsertWithKey(x, s[1..], key, k);
      PassHead(x, s[0], t, s[1..], key, k);
      assert [s[0]] + s[1..] == s;
    } else if |s| > 0 {
      assert Insert(x, s, key) == [x] + s;
    }
  }

  /** Helper for `InsertWithKey`: `x` may pass `y` when their keys are not both `k`. */
  lemma PassHead<T>(x: T, y: T, t: seq<T>, rest: seq<T>, key: T -> real, k: real)
    requires key(x) != k || key(y) != k
    requires WithKey(t, key, k) == WithKey([x] + rest, key, k)
    ensures WithKey([y] + t, key, k) == WithKey([x] + ([y] + rest), key, k)
  {
    var w := WithKey(rest, key, k);
    WithKeyCons(x, rest, key, k);
    WithKeyCons(y, t, key, k);
    WithKeyCons(y, rest, key, k);
    WithKeyCons(x, [y] + rest, key, k);
    if key(x) == k {
      assert WithKey([y] + t, key, k) == [x] + w;
    } else if key(y) == k {
      assert WithKey([y] + t, key, k) == [y] + w;
    } else {
      assert WithKey([y] + t, key, k) == w;
    }
  }

  lemma WithKeyCons<T>(x: T, s: seq<T>, key: T -> real, k: real)
    ensures WithKey([x] + s, key, k) == (if key(x) == k then [x] else []) + WithKey(s, key, k)
  {
    assert ([x] + s)[1..] == s;
  }

  /** Two elements of `s` with the same key, in this order, appear in this order among the
      elements with that key. */
  lemma {:induction false} WithKeyKeepsOrder<T>(s: seq<T>, key: T -> real, a: nat, b: nat)
    returns (p: nat, q: nat)
    requires a < b < |s| && key(s[a]) == key(s[b])
    ensures var c := WithKey(s, key, key(s[a]));
            p < q < |c| && c[p] == s[a] && c[q] == s[b]
    decreases |s|
  {
    var k := key(s[a]);
    var c' := WithKey(s[1..], key, k);
    WithKeyCons(s[0], s[1..], key, k);
    assert s == [s[0]] + s[1..];
    if a == 0 {
      var q' := WithKeyHas(s[1..], key, b - 1);
      p, q := 0, q' + 1;
    } else {
      var p', q' := WithKeyKeepsOrder(s[1..], key, a - 1, b - 1);
      if key(s[0]) == k {
        p, q := p' + 1, q' + 1;
      } else {
        p, q := p', q';
      }
    }
  }

  /** An element of `s` appears among the elements with its key. */
  lemma {:induction false} WithKeyHas<T>(s: seq<T>, key: T -> real, b: nat) returns (q: nat)
    requires b < |s|
    ensures q < |WithKey(s, key, key(s[b]))| && WithKey(s, key, key(s[b]))[q] == s[b]
    decreases |s|
  {
    var k := key(s[b]);
    var c' := WithKey(s[1..], key, k);
    if b == 0 {
      q := 0;
    } else {
      var q' := WithKeyHas(s[1..], key, b - 1);
      if key(s[0]) == k {
        assert WithKey(s, key, k) == [s[0]] + c';
        q := q' + 1;
      } else {
        assert WithKey(s, key, k) == c';
        q := q';
      }
    }
  }

  /** The converse: two positions among the elements with key `k` come from two positions of
      `s` in the same order. */
  lemma {:induction false} WithKeyFrom<T>(s: seq<T>, key: T -> real, k: real, p: nat, q: nat)
    returns (a: nat, b: nat)
    requires p < q < |WithKey(s, key, k)|
    ensures a < b < |s| && s[a] == WithKey(s, key, k)[p] && s[b] == WithKey(s, key, k)[q]
    decreases |s|
  {
    var c := WithKey(s, key, k);
    var c' := WithKey(s[1..], key, k);
    if key(s[0]) == k {
      assert c == [s[0]] + c';
      if p == 0 {
        a := 0;
        var b' := WithKeyAt(s[1..], key, k, q - 1);
        b := b' + 1;
      } else {
        var a', b' := WithKeyFrom(s[1..], key, k, p - 1, q - 1);
        a, b := a' + 1, b' + 1;
      }
    } else {
      assert c == c';
      var a', b' := WithKeyFrom(s[1..], key, k, p, q);
      a, b := a' + 1, b' + 1;
    }
  }

  /** Each element with key `k` comes from some position of `s`. */
  lemma {:induction false} WithKeyAt<T>(s: seq<T>, key: T -> real, k: real, p: nat) returns (a: nat)
    requires p < |WithKey(s, key, k)|
    ensures a < |s| && s[a] == WithKey(s, key, k)[p]
    decreases |s|
  {
    var c := WithKey(s, key, k);
    var c' := WithKey(s[1..], key, k);
    if key(s[0]) == k {
      assert c == [s[0]] + c';
      if p == 0 {
        a := 0;
      } else {
        var a' := WithKeyAt(s[1..], key, k, p - 1);
        a := a' + 1;
      }
    } else {
      assert c == c';
      var a' := WithKeyAt(s[1..], key, k, p);
      a := a' + 1;
    }
  }

  /** Stability by position: two sorted elements with equal keys come from two positions
      of the input in the same order. */
  lemma StableTies<T>(s: seq<T>, key: T -> real, i: nat, j: nat) returns (a: nat, b: nat)
    requires i < j < |SortBy(s, key)|
    requires key(SortBy(s, key)[i]) == key(SortBy(s, key)[j])
    ensures a < b < |s| && s[a] == SortBy(s, key)[i] && s[b] == SortBy(s, key)[j]
  {
    var r := SortBy(s, key);
    var k := key(r[i]);
    var p, q := WithKeyKeepsOrder(r, key, i, j);
    assert WithKey(r, key, k) == WithKey(s, key, k);
    a, b := WithKeyFrom(s, key, k, p, q);
  }

  /** For an input without repeats: equal keys keep their input order. */
  lemma SortByStable<T>(s: seq<T>, key: T -> real)
    requires Distinct(s)
    ensures var r := SortBy(s, key);
            forall i, j :: 0 <= i < j < |r| && key(r[i]) == key(r[j]) ==>
              IndexOf(s, r[i]) < IndexOf(s, r[j])
  {
    var r := SortBy(s, key);
    forall i, j | 0 <= i < j < |r| && key(r[i]) == key(r[j])
      ensures IndexOf(s, r[i]) < IndexOf(s, r[j])
    {
      var a, b := StableTies(s, key, i, j);
      DistinctIndexOf(s, a);
      DistinctIndexOf(s, b);
    }
  }

  /** Sorting a sequence without repeated elements yields one without repeats. */
  lemma {:induction false} SortByDistinct<T>(s: seq<T>, key: T -> real)
    requires Distinct(s)
    ensures Distinct(SortBy(s, key))
    decreases |s|
  {
    if |s| > 0 {
      SortByDistinct(s[1..], key);
      var t := SortBy(s[1..], key);
      assert s[0] !in multiset(t) by {
        assert s[0] !in s[1..];
      }
      InsertDistinct(s[0], t, key);
    }
  }

  lemma {:induction false} InsertDistinct<T>(x: T, s: seq<T>, key: T -> real)
    requires Distinct(s) && x !in s
    ensures Distinct(Insert(x, s, key))
    decreases |s|
  {
    if |s| > 0 && key(x) - key(s[0]) > 0.0 {
      var t := Insert(x, s[1..], key);
      assert s[0] !in s[1..];
      InsertDistinct(x, s[1..], key);
      assert s[0] !in multiset(t);
      assert Insert(x, s, key) == [s[0]] + t;
    }
  }
}
