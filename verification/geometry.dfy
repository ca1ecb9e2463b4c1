/** Plane geometry over reals: points, distance comparisons without square roots, and the
    p5 helpers `lerp` and `random(lo, hi)`. */
module Geometry {

  datatype Point = Point(x: real, y: real)

  /** The square of the Euclidean distance that p5's `dist` computes. */
  function SqDist(p: Point, q: Point): (d: real)
    ensures 0.0 <= d
  {
    (p.x - q.x) * (p.x - q.x) + (p.y - q.y) * (p.y - q.y)
  }

  /** `dist(p, q) < s`, decided on squared values (see `DistLessMeans`). */
  predicate DistLess(p: Point, q: Point, s: real) {
    0.0 < s && SqDist(p, q) < s * s
  }

  /** `dist(p, q) > s`, decided on squared values (see `DistGreaterMeans`). */
  predicate DistGreater(p: Point, q: Point, s: real) {
    s < 0.0 || s * s < SqDist(p, q)
  }

  /** For the true distance `d` (the non-negative root of `SqDist`), `DistLess` is `d < s`. */
  lemma DistLessMeans(p: Point, q: Point, s: real, d: real)
    requires 0.0 <= d && d * d == SqDist(p, q)
    ensures DistLess(p, q, s) <==> d < s
  {
    if d < s {
      SquareLess(d, s);
    } else if 0.0 < s {
      SquareLe(s, d);
    }
  }

  /** For the true distance `d`, `DistGreater` is `d > s`. */
  lemma DistGreaterMeans(p: Point, q: Point, s: real, d: real)
    requires 0.0 <= d && d * d == SqDist(p, q)
    ensures DistGreater(p, q, s) <==> s < d
  {
    if 0.0 <= s < d {
      SquareLess(s, d);
    } else if 0.0 <= s {
      SquareLe(d, s);
    }
  }

  lemma SquareLess(a: real, b: real)
    requires 0.0 <= a < b
    ensures a * a < b * b
  {
    var x, y := b - a, b + a;
    assert b * b - a * a == x * y;
    assert 0.0 < x * y by { assert 0.0 < x && 0.0 < y; }
  }

  lemma SquareLe(a: real, b: real)
    requires 0.0 <= a <= b
    ensures a * a <= b * b
  {
    assert b * b - a * a == (b - a) * (b + a);
    assert 0.0 <= (b - a) * (b + a);
  }

  /** p5's `lerp(start, stop, amt)`: what is left of the gap to `stop` is the fraction
      `1 - amt` of the gap before. */
  function Lerp(start: real, stop: real, amt: real): (v: real)
    ensures stop - v == (1.0 - amt) * (stop - start)
  {
    amt * (stop - start) + start
  }

  /** p5's `random(lo, hi)` for the underlying uniform draw `u`: p5 swaps reversed bounds,
      so with `u` in [0, 1) the value lies between the two bounds whichever comes first. */
  function RandomIn(u: real, lo: real, hi: real): (v: real)
    ensures 0.0 <= u < 1.0 ==> Min(lo, hi) <= v <= Max(lo, hi)
  {
    if hi < lo then Spread(u, hi, lo - hi) else Spread(u, lo, hi - lo)
  }

  /** The point a fraction `u` of the way across a span of width `w` starting at `lo`. */
  function Spread(u: real, lo: real, w: real): (v: real)
    ensures 0.0 <= u < 1.0 && 0.0 <= w ==> lo <= v <= lo + w
  {
    ScaleWithin(u, w);
    u * w + lo
  }

  /** A fraction in [0, 1) of a non-negative width lies between 0 and the width. */
  lemma ScaleWithin(u: real, w: real)
    ensures 0.0 <= u < 1.0 && 0.0 <= w ==> 0.0 <= u * w <= w
  {
    MulMono(w, u, 1.0);
    MulMono(w, 0.0, u);
  }

  lemma MulMono(a: real, b: real, c: real)
    ensures 0.0 <= a && b <= c ==> a * b <= a * c
  {
    assert a * c - a * b == a * (c - b);
  }

  function Min(a: real, b: real): real {
    if a < b then a else b
  }

  function Max(a: real, b: real): real {
    if a < b then b else a
  }
}
