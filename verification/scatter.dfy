/** The elite view, `applyEliteView`: circles whose upper-cased surname is an assembly
    member's are packed without overlap into a disk at the centre of the canvas, largest
    first; all others are scattered by rejection sampling outside that disk. Random draws
    come from an oracle, one stream per kind of draw. */
module Scatter {
  import opened Basics
  import opened Geometry
  import opened Text
  import opened Sorting
  import opened Model

  /** Budget of candidate centres shared by all elite circles. */
  const MaxTries: nat := 5000
  /** Budget of candidate points for each non-elite circle. */
  const MaxAttempts: nat := 500
  /** Extra clearance between two packed elite circles. */
  const Gap: real := 2.0
  /** Extra clearance between a non-elite circle and the elite disk. */
  const Clearance: real := 10.0
  /** Half-width of the square the elite fallback is jittered in. */
  const Jiggle: real := 10.0
  /** Dark grey (brightness 15), the elite target colour. */
  const Dark: Color := HSB(0.0, 0.0, 15.0)
  /** Light grey (brightness 70), the non-elite target colour. */
  const Light: Color := HSB(0.0, 0.0, 70.0)

  /** The elite disk: centre of the canvas, radius a third of the shorter side. */
  datatype Focus = Focus(centre: Point, radius: real)

  function FocusOf(v: Viewport): (f: Focus)
    ensures 2.0 * f.centre.x == v.width && 2.0 * f.centre.y == v.height
    ensures 3.0 * f.radius == v.width || 3.0 * f.radius == v.height
    ensures 3.0 * f.radius <= v.width && 3.0 * f.radius <= v.height
  {
    Focus(Point(v.width / 2.0, v.height / 2.0), Min(v.width, v.height) / 3.0)
  }

  /** One elite candidate draw: the uniform draw behind the distance from the centre, in
      [0, R - r], and the cosine and sine of a uniform angle. */
  datatype Polar = Polar(u: real, cos: real, sin: real)

  /** Two uniform draws, one per axis. */
  datatype Draw2 = Draw2(u: real, v: real)

  /** The random source: the polar draw of each elite try (numbered by the shared try
      counter), the jitter of the `k`-th elite circle, the `a`-th box draw for the `j`-th
      non-elite circle, and the fallback box draw of the `j`-th non-elite circle. */
  datatype Oracle = Oracle(
    polar: nat -> Polar,
    jitter: nat -> Draw2,
    box: (nat, nat) -> Draw2,
    spare: nat -> Draw2)

  /** A polar draw as the real functions produce it: the uniform draw in [0, 1) and a unit
      direction. */
  predicate UnitPolar(p: Polar) {
    0.0 <= p.u < 1.0 && p.cos * p.cos + p.sin * p.sin == 1.0
  }

  predicate UnitDraw(d: Draw2) {
    0.0 <= d.u < 1.0 && 0.0 <= d.v < 1.0
  }

  /** Every draw the oracle can hand out is one the real functions could produce. */
  ghost predicate Valid(o: Oracle) {
    && (forall t :: UnitPolar(o.polar(t)))
    && (forall k :: UnitDraw(o.jitter(k)))
    && (forall j, a :: UnitDraw(o.box(j, a)))
    && (forall j :: UnitDraw(o.spare(j)))
  }

  /** The centre a polar draw proposes for an elite circle of radius `r`. */
  function Candidate(p: Polar, r: real, f: Focus): Point {
    var rad := RandomIn(p.u, 0.0, f.radius - r);
    Point(f.centre.x + rad * p.cos, f.centre.y + rad * p.sin)
  }

  /** A valid draw proposes a centre whose circle lies inside the elite disk: the centre
      is at most `R - r` from the disk's centre. */
  lemma CandidateInside(p: Polar, r: real, f: Focus)
    requires UnitPolar(p) && 0.0 <= r <= f.radius
    ensures SqDist(Candidate(p, r, f), f.centre) <= (f.radius - r) * (f.radius - r)
  {
    var rad := RandomIn(p.u, 0.0, f.radius - r);
    var q := Candidate(p, r, f);
    assert 0.0 <= rad <= f.radius - r;
    calc {
      SqDist(q, f.centre);
      (rad * p.cos) * (rad * p.cos) + (rad * p.sin) * (rad * p.sin);
      rad * rad * (p.cos * p.cos + p.sin * p.sin);
      rad * rad;
    }
    SquareLe(rad, f.radius - r);
  }

  /** The elite fallback: the disk's centre moved by a uniform amount in [-10, 10] on each
      axis. */
  function Jitter(d: Draw2, f: Focus): Point {
    Point(f.centre.x + RandomIn(d.u, -Jiggle, Jiggle), f.centre.y + RandomIn(d.v, -Jiggle, Jiggle))
  }

  /** A valid jitter stays within 10 of the centre on each axis. */
  lemma JitterNear(d: Draw2, f: Focus)
    requires UnitDraw(d)
    ensures var p := Jitter(d, f);
            && f.centre.x - Jiggle <= p.x <= f.centre.x + Jiggle
            && f.centre.y - Jiggle <= p.y <= f.centre.y + Jiggle
  {
  }

  /** A uniform point of the canvas less its margin, one draw per axis. */
  function BoxPoint(d: Draw2, v: Viewport): Point {
    Point(RandomIn(d.u, Margin, v.width - Margin), RandomIn(d.v, Margin, v.height - Margin))
  }

  /** Inside the canvas less its margin (either bound order, as `random` swaps them). */
  predicate InBox(p: Point, v: Viewport) {
    && Min(Margin, v.width - Margin) <= p.x <= Max(Margin, v.width - Margin)
    && Min(Margin, v.height - Margin) <= p.y <= Max(Margin, v.height - Margin)
  }

  lemma BoxPointInBox(d: Draw2, v: Viewport)
    requires UnitDraw(d)
    ensures InBox(BoxPoint(d, v), v)
  {
  }

  /** A circle already packed into the elite disk. */
  datatype Disk = Disk(centre: Point, r: real)

  /** No packed circle is nearer than `r + other.r + 2` to `p`: the inner loop finds no
      overlap. */
  predicate ClearOf(p: Point, r: real, packed: seq<Disk>) {
    forall i :: 0 <= i < |packed| ==> !DistLess(p, packed[i].centre, r + packed[i].r + Gap)
  }

  /** Farther than `R + r + 10` from the centre: the non-elite acceptance test. */
  predicate Outside(p: Point, r: real, f: Focus) {
    DistGreater(p, f.centre, f.radius + r + Clearance)
  }

  /** Outcome of a rejection loop: the accepted point, if any, and the counter on exit. */
  datatype Search = Search(found: Option<Point>, count: nat)

  /** The search loop for one elite circle, entered with the
      shared counter at `t`: the first clear candidate, the counter one past its try, and
      every earlier candidate rejected; when none is clear the budget is spent. */
  function SearchElite(r: real, t: nat, packed: seq<Disk>, f: Focus, o: Oracle): (s: Search)
    requires t <= MaxTries
    ensures t <= s.count <= MaxTries
    ensures s.found.Some? ==>
              && t < s.count
              && s.found.value == Candidate(o.polar(s.count - 1), r, f)
              && ClearOf(s.found.value, r, packed)
    ensures s.found.None? ==> s.count == MaxTries
    ensures forall k :: t <= k < s.count && (s.found.None? || k < s.count - 1) ==>
              !ClearOf(Candidate(o.polar(k), r, f), r, packed)
    decreases MaxTries - t
  {
    if t == MaxTries then Search(None, t)
    else
      var p := Candidate(o.polar(t), r, f);
      if ClearOf(p, r, packed) then Search(Some(p), t + 1)
      else SearchElite(r, t + 1, packed, f, o)
  }

  /** Where the view sends one circle (given by its index in `circles`), and whether a
      search accepted the point (otherwise it is the fallback). */
  datatype Placement = Placement(idx: nat, pos: Point, searched: bool)

  /** State of the elite loop: the placements so far, the shared try counter, and the
      packed disks. */
  datatype EliteRun = EliteRun(placements: seq<Placement>, tries: nat, packed: seq<Disk>)

  /** Radius of the circle an index names. */
  function RadiusAt(cs: seq<Circle>, i: nat): real {
    if i < |cs| then cs[i].r else 0.0
  }

  /** The first `n` elite circles of `order` placed. */
  function PlaceElite(cs: seq<Circle>, order: seq<nat>, n: nat, f: Focus, o: Oracle): (run: EliteRun)
    requires n <= |order|
    requires forall k :: 0 <= k < |order| ==> order[k] < |cs|
    ensures |run.placements| == n && run.tries <= MaxTries
    ensures forall k :: 0 <= k < n ==> run.placements[k].idx == order[k]
    ensures forall k :: 0 <= k < n && run.placements[k].searched ==>
              Disk(run.placements[k].pos, cs[order[k]].r) in run.packed
    ensures forall k :: 0 <= k < n && run.placements[k].searched ==>
              exists t :: 0 <= t < run.tries && run.placements[k].pos == Candidate(o.polar(t), cs[order[k]].r, f)
    ensures forall k :: 0 <= k < n && !run.placements[k].searched ==>
              run.placements[k].pos == Jitter(o.jitter(k), f) && run.tries == MaxTries
    ensures forall i, j :: 0 <= i < j < n && run.placements[i].searched && run.placements[j].searched ==>
              !DistLess(run.placements[j].pos, run.placements[i].pos, cs[order[j]].r + cs[order[i]].r + Gap)
    ensures forall i, j :: 0 <= i < j < n && !run.placements[i].searched ==> !run.placements[j].searched
    decreases n
  {
    if n == 0 then EliteRun([], 0, [])
    else
      var prev := PlaceElite(cs, order, n - 1, f, o);
      var r := cs[order[n - 1]].r;
      var s := SearchElite(r, prev.tries, prev.packed, f, o);
      var run := match s.found
        case Some(p) => EliteRun(prev.placements + [Placement(order[n - 1], p, true)], s.count, prev.packed + [Disk(p, r)])
        case None => EliteRun(prev.placements + [Placement(order[n - 1], Jitter(o.jitter(n - 1), f), false)], s.count, prev.packed);
      EliteStep(cs, order, n, f, o, prev, s, run);
      run
  }

  /** Helper for `PlaceElite`: one more circle keeps every fact about the run. */
  lemma EliteStep(cs: seq<Circle>, order: seq<nat>, n: nat, f: Focus, o: Oracle, prev: EliteRun, s: Search, run: EliteRun)
    requires 0 < n <= |order|
    requires forall k :: 0 <= k < |order| ==> order[k] < |cs|
    requires |prev.placements| == n - 1 && prev.tries <= MaxTries
    requires forall k :: 0 <= k < n - 1 ==> prev.placements[k].idx == order[k]
    requires forall k :: 0 <= k < n - 1 && prev.placements[k].searched ==>
               Disk(prev.placements[k].pos, cs[order[k]].r) in prev.packed
    requires forall k :: 0 <= k < n - 1 && prev.placements[k].searched ==>
               exists t :: 0 <= t < prev.tries && prev.placements[k].pos == Candidate(o.polar(t), cs[order[k]].r, f)
    requires forall k :: 0 <= k < n - 1 && !prev.placements[k].searched ==>
               prev.placements[k].pos == Jitter(o.jitter(k), f) && prev.tries == MaxTries
    requires forall i, j :: 0 <= i < j < n - 1 && prev.placements[i].searched && prev.placements[j].searched ==>
               !DistLess(prev.placements[j].pos, prev.placements[i].pos, cs[order[j]].r + cs[order[i]].r + Gap)
    requires forall i, j :: 0 <= i < j < n - 1 && !prev.placements[i].searched ==> !prev.placements[j].searched
    requires s == SearchElite(cs[order[n - 1]].r, prev.tries, prev.packed, f, o)
    requires run == match s.found
               case Some(p) => EliteRun(prev.placements + [Placement(order[n - 1], p, true)], s.count, prev.packed + [Disk(p, cs[order[n - 1]].r)])
               case None => EliteRun(prev.placements + [Placement(order[n - 1], Jitter(o.jitter(n - 1), f), false)], s.count, prev.packed)
    ensures |run.placements| == n && run.tries <= MaxTries
    ensures forall k :: 0 <= k < n ==> run.placements[k].idx == order[k]
    ensures forall k :: 0 <= k < n && run.placements[k].searched ==>
              Disk(run.placements[k].pos, cs[order[k]].r) in run.packed
    ensures forall k :: 0 <= k < n && run.placements[k].searched ==>
              exists t :: 0 <= t < run.tries && run.placements[k].pos == Candidate(o.polar(t), cs[order[k]].r, f)
    ensures forall k :: 0 <= k < n && !run.placements[k].searched ==>
              run.placements[k].pos == Jitter(o.jitter(k), f) && run.tries == MaxTries
    ensures forall i, j :: 0 <= i < j < n && run.placements[i].searched && run.placements[j].searched ==>
              !DistLess(run.placements[j].pos, run.placements[i].pos, cs[order[j]].r + cs[order[i]].r + Gap)
    ensures forall i, j :: 0 <= i < j < n && !run.placements[i].searched ==> !run.placements[j].searched
  {
    var m := n - 1;
    var ps := run.placements;
    assert forall k :: 0 <= k < m ==> ps[k] == prev.placements[k];
    assert forall d :: d in prev.packed ==> d in run.packed;
    if s.found.Some? {
      var p := s.found.value;
      var r := cs[order[m]].r;
      assert ps[m] == Placement(order[m], p, true);
      assert Disk(p, r) in run.packed by {
        assert run.packed[|prev.packed|] == Disk(p, r);
      }
      assert prev.tries < MaxTries;
      forall i | 0 <= i < m && ps[i].searched
        ensures !DistLess(p, ps[i].pos, r + cs[order[i]].r + Gap)
      {
        var d := Disk(ps[i].pos, cs[order[i]].r);
        assert d in prev.packed;
        var q :| 0 <= q < |prev.packed| && prev.packed[q] == d;
      }
    } else {
      assert ps[m] == Placement(order[m], Jitter(o.jitter(m), f), false);
    }
  }

  /** In true distances: two circles the elite loop placed by search have centres at
      least the sum of their radii plus 2 apart, for `d` the root of the squared distance. */
  lemma EliteApart(cs: seq<Circle>, order: seq<nat>, f: Focus, o: Oracle, i: nat, j: nat, d: real)
    requires forall k :: 0 <= k < |order| ==> order[k] < |cs|
    requires i < j < |order|
    requires var run := PlaceElite(cs, order, |order|, f, o);
             run.placements[i].searched && run.placements[j].searched
    requires var run := PlaceElite(cs, order, |order|, f, o);
             0.0 <= d && d * d == SqDist(run.placements[j].pos, run.placements[i].pos)
    ensures cs[order[j]].r + cs[order[i]].r + Gap <= d
  {
    var run := PlaceElite(cs, order, |order|, f, o);
    DistLessMeans(run.placements[j].pos, run.placements[i].pos, cs[order[j]].r + cs[order[i]].r + Gap, d);
  }

  /** The attempt loop for the `j`-th non-elite circle, entered at
      attempt `a`: the first point outside the elite disk's clearance, and every earlier
      point rejected; when none qualifies all 500 attempts are spent. */
  function SearchOutside(r: real, j: nat, a: nat, v: Viewport, f: Focus, o: Oracle): (s: Search)
    requires a <= MaxAttempts
    ensures a <= s.count <= MaxAttempts
    ensures s.found.Some? ==>
              && a < s.count
              && s.found.value == BoxPoint(o.box(j, s.count - 1), v)
              && Outside(s.found.value, r, f)
    ensures s.found.None? ==> s.count == MaxAttempts
    ensures forall k :: a <= k < s.count && (s.found.None? || k < s.count - 1) ==>
              !Outside(BoxPoint(o.box(j, k), v), r, f)
    decreases MaxAttempts - a
  {
    if a == MaxAttempts then Search(None, a)
    else
      var p := BoxPoint(o.box(j, a), v);
      if Outside(p, r, f) then Search(Some(p), a + 1)
      else SearchOutside(r, j, a + 1, v, f, o)
  }

  /** In true distances: an accepted non-elite point is farther than `R + r + 10` from
      the centre, for `d` the root of the squared distance. */
  lemma OutsideMeans(p: Point, r: real, f: Focus, d: real)
    requires Outside(p, r, f)
    requires 0.0 <= d && d * d == SqDist(p, f.centre)
    ensures f.radius + r + Clearance < d
  {
    DistGreaterMeans(p, f.centre, f.radius + r + Clearance, d);
  }

  /** The target of the `j`-th non-elite circle, whose index in `circles` is `idx`: the
      accepted point, or a fresh point of the canvas less its margin from the spare draw. */
  function PlaceOther(cs: seq<Circle>, idx: nat, j: nat, v: Viewport, f: Focus, o: Oracle): (pl: Placement)
    requires idx < |cs|
    ensures pl.idx == idx
    ensures pl.searched ==>
              && Outside(pl.pos, cs[idx].r, f)
              && exists a :: 0 <= a < MaxAttempts && pl.pos == BoxPoint(o.box(j, a), v)
    ensures !pl.searched ==>
              && pl.pos == BoxPoint(o.spare(j), v)
              && forall a :: 0 <= a < MaxAttempts ==> !Outside(BoxPoint(o.box(j, a), v), cs[idx].r, f)
  {
    var s := SearchOutside(cs[idx].r, j, 0, v, f, o);
    match s.found
    case Some(p) => Placement(idx, p, true)
    case None => Placement(idx, BoxPoint(o.spare(j), v), false)
  }

  /** The non-elite loop: one placement per non-elite circle, in their order. */
  function PlaceOthers(cs: seq<Circle>, others: seq<nat>, v: Viewport, f: Focus, o: Oracle): (ps: seq<Placement>)
    requires forall j :: 0 <= j < |others| ==> others[j] < |cs|
    ensures |ps| == |others|
    ensures forall j :: 0 <= j < |others| ==> ps[j] == PlaceOther(cs, others[j], j, v, f, o)
  {
    seq(|others|, j requires 0 <= j < |others| => PlaceOther(cs, others[j], j, v, f, o))
  }

  /** No two placements name the same circle. */
  predicate DistinctTargets(ps: seq<Placement>) {
    forall a, b :: 0 <= a < b < |ps| ==> ps[a].idx != ps[b].idx
  }

  /** Sets `targetX`, `targetY`, `targetColor` of each placed circle, through its index. */
  function Assign(cs: seq<Circle>, ps: seq<Placement>, col: Color): (out: seq<Circle>)
    requires forall k :: 0 <= k < |ps| ==> ps[k].idx < |cs|
    ensures |out| == |cs|
    ensures forall i :: 0 <= i < |cs| ==> out[i] == cs[i].(target := out[i].target)
    ensures forall i :: 0 <= i < |cs| && (forall k :: 0 <= k < |ps| ==> ps[k].idx != i) ==> out[i] == cs[i]
    ensures DistinctTargets(ps) ==>
              forall k :: 0 <= k < |ps| ==> out[ps[k].idx].target == Some(Target(ps[k].pos, col))
    decreases |ps|
  {
    if |ps| == 0 then cs
    else
      var n := |ps| - 1;
      var prev := Assign(cs, ps[..n], col);
      var i := ps[n].idx;
      assert forall k :: 0 <= k < n ==> ps[..n][k] == ps[k];
      prev[i := prev[i].(target := Some(Target(ps[n].pos, col)))]
  }

  /** A circle is elite when its upper-cased surname is in the elite set. */
  predicate IsElite(c: Circle, es: set<string>) {
    Upper(c.surname) in es
  }

  /** Indices of the elite circles, in `circles` order. */
  function EliteIndices(cs: seq<Circle>, es: set<string>): (e: seq<nat>)
    ensures forall k :: 0 <= k < |e| ==> e[k] < |cs| && IsElite(cs[e[k]], es)
    ensures forall i :: 0 <= i < |cs| && IsElite(cs[i], es) ==> i in e
    ensures forall a, b :: 0 <= a < b < |e| ==> e[a] < e[b]
  {
    Where(cs, (c: Circle) => IsElite(c, es))
  }

  /** Indices of the other circles, in `circles` order. */
  function OtherIndices(cs: seq<Circle>, es: set<string>): (n: seq<nat>)
    ensures forall k :: 0 <= k < |n| ==> n[k] < |cs| && !IsElite(cs[n[k]], es)
    ensures forall i :: 0 <= i < |cs| && !IsElite(cs[i], es) ==> i in n
    ensures forall a, b :: 0 <= a < b < |n| ==> n[a] < n[b]
  {
    Where(cs, (c: Circle) => !IsElite(c, es))
  }

  /** Every circle lands in exactly one group, the one its membership says, and the two
      groups together have as many entries as `circles`. */
  lemma Partition(cs: seq<Circle>, es: set<string>)
    ensures var e, n := EliteIndices(cs, es), OtherIndices(cs, es);
            && (forall i :: 0 <= i < |cs| ==> (i in e <==> IsElite(cs[i], es)) && (i in n <==> !IsElite(cs[i], es)))
            && |e| + |n| == |cs|
  {
    var e, n := EliteIndices(cs, es), OtherIndices(cs, es);
    var p := (c: Circle) => IsElite(c, es);
    var q := (c: Circle) => !IsElite(c, es);
    WhereSplit(cs, p, q);
    assert e == Where(cs, p) && n == Where(cs, q);
  }

  /** The elite circles ordered by radius: largest first, ties in `circles`
      order. */
  function EliteOrder(cs: seq<Circle>, es: set<string>): (order: seq<nat>)
    ensures multiset(order) == multiset(EliteIndices(cs, es))
    ensures forall k :: 0 <= k < |order| ==> order[k] < |cs| && IsElite(cs[order[k]], es)
    ensures forall a, b :: 0 <= a < b < |order| ==> cs[order[b]].r <= cs[order[a]].r
    ensures forall i :: 0 <= i < |cs| && IsElite(cs[i], es) ==> i in order
    ensures Distinct(order)
    ensures forall a, b :: 0 <= a < b < |order| && cs[order[a]].r == cs[order[b]].r ==> order[a] < order[b]
  {
    var e := EliteIndices(cs, es);
    var key := (i: nat) => -RadiusAt(cs, i);
    var order := SortBy<nat>(e, key);
    SortByDistinct<nat>(e, key);
    SortedElite(cs, es, e, order, key);
    TiesInOrder(cs, e, order, key);
    order
  }

  /** Helper for `EliteOrder`: sorting increasing indices keeps the indices of equal radii
      increasing. */
  lemma TiesInOrder(cs: seq<Circle>, e: seq<nat>, order: seq<nat>, key: nat -> real)
    requires forall a, b :: 0 <= a < b < |e| ==> e[a] < e[b]
    requires forall i :: key(i) == -RadiusAt(cs, i)
    requires order == SortBy(e, key)
    ensures forall a, b :: 0 <= a < b < |order| && RadiusAt(cs, order[a]) == RadiusAt(cs, order[b]) ==>
              order[a] < order[b]
  {
    forall a, b | 0 <= a < b < |order| && RadiusAt(cs, order[a]) == RadiusAt(cs, order[b])
      ensures order[a] < order[b]
    {
      assert key(order[a]) == key(order[b]);
      var i, j := StableTies(e, key, a, b);
    }
  }

  /** Helper for `EliteOrder`: what sorting the elite indices by `-r` gives. */
  lemma SortedElite(cs: seq<Circle>, es: set<string>, e: seq<nat>, order: seq<nat>, key: nat -> real)
    requires forall k :: 0 <= k < |e| ==> e[k] < |cs| && IsElite(cs[e[k]], es)
    requires forall i :: 0 <= i < |cs| && IsElite(cs[i], es) ==> i in e
    requires multiset(order) == multiset(e)
    requires forall i :: key(i) == -RadiusAt(cs, i)
    requires Ascending(order, key)
    ensures forall k :: 0 <= k < |order| ==> order[k] < |cs| && IsElite(cs[order[k]], es)
    ensures forall a, b :: 0 <= a < b < |order| ==> cs[order[b]].r <= cs[order[a]].r
    ensures forall i :: 0 <= i < |cs| && IsElite(cs[i], es) ==> i in order
  {
    forall k | 0 <= k < |order|
      ensures order[k] < |cs| && IsElite(cs[order[k]], es)
    {
      assert order[k] in multiset(e);
    }
    forall a, b | 0 <= a < b < |order|
      ensures cs[order[b]].r <= cs[order[a]].r
    {
      assert key(order[a]) <= key(order[b]);
    }
    forall i | 0 <= i < |cs| && IsElite(cs[i], es)
      ensures i in order
    {
      assert i in multiset(e);
    }
  }

  /** The elite loop over the whole sorted group, for the state's circles. */
  function EliteRunOf(st: AppState, es: set<string>, v: Viewport, o: Oracle): EliteRun {
    var order := EliteOrder(st.circles, es);
    PlaceElite(st.circles, order, |order|, FocusOf(v), o)
  }

  /** The non-elite loop over the whole group, for the state's circles. */
  function OtherPlacementsOf(st: AppState, es: set<string>, v: Viewport, o: Oracle): seq<Placement> {
    var others := OtherIndices(st.circles, es);
    Partition(st.circles, es);
    PlaceOthers(st.circles, others, v, FocusOf(v), o)
  }

  /** `applyEliteView`: the flag goes on; every circle gets a target and nothing else
      changes; elite circles get the dark colour and the elite loop's point, all others
      the light colour and the non-elite loop's point. */
  function ApplyEliteView(st: AppState, es: set<string>, v: Viewport, o: Oracle): (next: AppState)
    ensures next.isEliteView
    ensures |next.circles| == |st.circles|
    ensures forall i :: 0 <= i < |st.circles| ==>
              && next.circles[i] == st.circles[i].(target := next.circles[i].target)
              && next.circles[i].target.Some?
              && (next.circles[i].target.value.color == Dark <==> IsElite(st.circles[i], es))
              && (next.circles[i].target.value.color == Light <==> !IsElite(st.circles[i], es))
    ensures var order, run := EliteOrder(st.circles, es), EliteRunOf(st, es, v, o);
            forall k :: 0 <= k < |order| ==> next.circles[order[k]].target == Some(Target(run.placements[k].pos, Dark))
    ensures var others, ps := OtherIndices(st.circles, es), OtherPlacementsOf(st, es, v, o);
            forall j :: 0 <= j < |others| ==> next.circles[others[j]].target == Some(Target(ps[j].pos, Light))
  {
    EliteViewTargets(st, es, v, o);
    AppState(ViewCircles(st, es, v, o), true)
  }

  /** The circles after both assignment passes: elite placements in the dark colour, then
      the others in the light colour. */
  function ViewCircles(st: AppState, es: set<string>, v: Viewport, o: Oracle): (out: seq<Circle>)
    ensures |out| == |st.circles|
  {
    var run := EliteRunOf(st, es, v, o);
    var ps := OtherPlacementsOf(st, es, v, o);
    Assign(Assign(st.circles, run.placements, Dark), ps, Light)
  }

  /** Helper for `ApplyEliteView`: the facts about `ViewCircles`. */
  lemma EliteViewTargets(st: AppState, es: set<string>, v: Viewport, o: Oracle)
    ensures var out := ViewCircles(st, es, v, o);
            && |out| == |st.circles|
            && (forall i :: 0 <= i < |st.circles| ==>
                  && out[i] == st.circles[i].(target := out[i].target)
                  && out[i].target.Some?
                  && (out[i].target.value.color == Dark <==> IsElite(st.circles[i], es))
                  && (out[i].target.value.color == Light <==> !IsElite(st.circles[i], es)))
            && (var order, run := EliteOrder(st.circles, es), EliteRunOf(st, es, v, o);
                forall k :: 0 <= k < |order| ==> out[order[k]].target == Some(Target(run.placements[k].pos, Dark)))
            && (var others, ps := OtherIndices(st.circles, es), OtherPlacementsOf(st, es, v, o);
                forall j :: 0 <= j < |others| ==> out[others[j]].target == Some(Target(ps[j].pos, Light)))
  {
    var cs := st.circles;
    Partition(cs, es);
    var order := EliteOrder(cs, es);
    var others := OtherIndices(cs, es);
    var run := EliteRunOf(st, es, v, o);
    var ps := OtherPlacementsOf(st, es, v, o);
    var dark := Assign(cs, run.placements, Dark);
    var out := Assign(dark, ps, Light);
    ViewTargets(cs, es, order, others, run.placements, ps, dark, out);
    assert out == ViewCircles(st, es, v, o);
  }

  /** Helper for `ApplyEliteView`: the two assignment passes together give every circle
      the target of its own group. */
  lemma ViewTargets(cs: seq<Circle>, es: set<string>, order: seq<nat>, others: seq<nat>,
                    eps: seq<Placement>, ps: seq<Placement>, dark: seq<Circle>, out: seq<Circle>)
    requires forall k :: 0 <= k < |order| ==> order[k] < |cs| && IsElite(cs[order[k]], es)
    requires forall i :: 0 <= i < |cs| && IsElite(cs[i], es) ==> i in order
    requires Distinct(order)
    requires forall j :: 0 <= j < |others| ==> others[j] < |cs| && !IsElite(cs[others[j]], es)
    requires forall i :: 0 <= i < |cs| && !IsElite(cs[i], es) ==> i in others
    requires forall a, b :: 0 <= a < b < |others| ==> others[a] < others[b]
    requires |eps| == |order| && forall k :: 0 <= k < |order| ==> eps[k].idx == order[k]
    requires |ps| == |others| && forall j :: 0 <= j < |others| ==> ps[j].idx == others[j]
    requires dark == Assign(cs, eps, Dark) && out == Assign(dark, ps, Light)
    ensures |out| == |cs|
    ensures forall i :: 0 <= i < |cs| ==>
              && out[i] == cs[i].(target := out[i].target)
              && out[i].target.Some?
              && (out[i].target.value.color == Dark <==> IsElite(cs[i], es))
              && (out[i].target.value.color == Light <==> !IsElite(cs[i], es))
    ensures forall k :: 0 <= k < |order| ==> out[order[k]].target == Some(Target(eps[k].pos, Dark))
    ensures forall j :: 0 <= j < |others| ==> out[others[j]].target == Some(Target(ps[j].pos, Light))
  {
    assert DistinctTargets(eps);
    assert DistinctTargets(ps);
    KeptDark(cs, es, order, others, ps, dark, out);
    ViewColours(cs, es, order, others, eps, ps, out);
  }

  /** Helper for `ViewTargets`: with every elite circle aimed at its dark point and every
      other one at its light point, each circle's target colour is its group's. */
  lemma ViewColours(cs: seq<Circle>, es: set<string>, order: seq<nat>, others: seq<nat>,
                    eps: seq<Placement>, ps: seq<Placement>, out: seq<Circle>)
    requires |out| == |cs|
    requires forall i :: 0 <= i < |cs| && IsElite(cs[i], es) ==> i in order
    requires forall i :: 0 <= i < |cs| && !IsElite(cs[i], es) ==> i in others
    requires forall k :: 0 <= k < |order| ==> order[k] < |cs|
    requires forall j :: 0 <= j < |others| ==> others[j] < |cs|
    requires |eps| == |order| && forall k :: 0 <= k < |order| ==> out[order[k]].target == Some(Target(eps[k].pos, Dark))
    requires |ps| == |others| && forall j :: 0 <= j < |others| ==> out[others[j]].target == Some(Target(ps[j].pos, Light))
    ensures forall i :: 0 <= i < |cs| ==>
              && out[i].target.Some?
              && (out[i].target.value.color == Dark <==> IsElite(cs[i], es))
              && (out[i].target.value.color == Light <==> !IsElite(cs[i], es))
  {
    forall i | 0 <= i < |cs|
      ensures out[i].target.Some?
      ensures out[i].target.value.color == Dark <==> IsElite(cs[i], es)
      ensures out[i].target.value.color == Light <==> !IsElite(cs[i], es)
    {
      if IsElite(cs[i], es) {
        var k :| 0 <= k < |order| && order[k] == i;
        assert out[i].target == Some(Target(eps[k].pos, Dark));
      } else {
        var j :| 0 <= j < |others| && others[j] == i;
        assert out[i].target == Some(Target(ps[j].pos, Light));
      }
    }
  }

  /** Helper for `ViewTargets`: the light pass leaves the elite circles alone. */
  lemma KeptDark(cs: seq<Circle>, es: set<string>, order: seq<nat>, others: seq<nat>,
                 ps: seq<Placement>, dark: seq<Circle>, out: seq<Circle>)
    requires forall k :: 0 <= k < |order| ==> order[k] < |cs| && IsElite(cs[order[k]], es)
    requires forall j :: 0 <= j < |others| ==> others[j] < |cs| && !IsElite(cs[others[j]], es)
    requires |ps| == |others| && forall j :: 0 <= j < |others| ==> ps[j].idx == others[j]
    requires |dark| == |cs| && out == Assign(dark, ps, Light)
    ensures forall k :: 0 <= k < |order| ==> out[order[k]] == dark[order[k]]
  {
    forall k | 0 <= k < |order|
      ensures out[order[k]] == dark[order[k]]
    {
      var i := order[k];
      forall j | 0 <= j < |ps|
        ensures ps[j].idx != i
      {
        assert !IsElite(cs[others[j]], es);
      }
    }
  }

  /** Where an elite placement may land: a searched centre keeps its circle inside the
      elite disk, a fallback lies within 10 of the centre on each axis. */
  predicate Landed(pl: Placement, r: real, f: Focus) {
    if pl.searched then SqDist(pl.pos, f.centre) <= (f.radius - r) * (f.radius - r)
    else && f.centre.x - Jiggle <= pl.pos.x <= f.centre.x + Jiggle
         && f.centre.y - Jiggle <= pl.pos.y <= f.centre.y + Jiggle
  }

  /** For valid draws and circles no larger than the elite disk, every elite placement
      lands inside the disk or, as a fallback, next to its centre. */
  lemma EliteTargetsNear(cs: seq<Circle>, order: seq<nat>, f: Focus, o: Oracle)
    requires Valid(o)
    requires forall k :: 0 <= k < |order| ==> order[k] < |cs| && 0.0 <= cs[order[k]].r <= f.radius
    ensures var run := PlaceElite(cs, order, |order|, f, o);
            forall k :: 0 <= k < |order| ==> Landed(run.placements[k], cs[order[k]].r, f)
  {
    var run := PlaceElite(cs, order, |order|, f, o);
    forall k | 0 <= k < |order|
      ensures Landed(run.placements[k], cs[order[k]].r, f)
    {
      LandedOne(run.placements[k], cs[order[k]].r, k, run.tries, f, o);
    }
  }

  lemma LandedOne(pl: Placement, r: real, k: nat, tries: nat, f: Focus, o: Oracle)
    requires Valid(o) && 0.0 <= r <= f.radius
    requires pl.searched ==> exists t :: 0 <= t < tries && pl.pos == Candidate(o.polar(t), r, f)
    requires !pl.searched ==> pl.pos == Jitter(o.jitter(k), f)
    ensures Landed(pl, r, f)
  {
    if pl.searched {
      var t :| 0 <= t < tries && pl.pos == Candidate(o.polar(t), r, f);
      CandidateInside(o.polar(t), r, f);
    } else {
      JitterNear(o.jitter(k), f);
    }
  }

  /** For valid draws every non-elite target lies in the canvas less its margin, and an
      accepted one is farther than `R + r + 10` from the centre. */
  lemma OtherTargetsInBox(cs: seq<Circle>, others: seq<nat>, v: Viewport, f: Focus, o: Oracle)
    requires Valid(o)
    requires forall j :: 0 <= j < |others| ==> others[j] < |cs|
    ensures var ps := PlaceOthers(cs, others, v, f, o);
            forall j :: 0 <= j < |others| ==>
              && InBox(ps[j].pos, v)
              && (ps[j].searched ==> Outside(ps[j].pos, cs[others[j]].r, f))
  {
    var ps := PlaceOthers(cs, others, v, f, o);
    forall j | 0 <= j < |others|
      ensures InBox(ps[j].pos, v)
    {
      if ps[j].searched {
        var a :| 0 <= a < MaxAttempts && ps[j].pos == BoxPoint(o.box(j, a), v);
        BoxPointInBox(o.box(j, a), v);
      } else {
        BoxPointInBox(o.spare(j), v);
      }
    }
  }
}
