/** The alphabetical view: `layoutCircles` packs the sorted surnames onto shelves, left to
    right, sized by frequency and coloured by first letter; `restoreOriginalLayout` makes
    that packing the target of every circle. */
module Alphabetical {
  import opened Basics
  import opened Geometry
  import opened Text
  import opened Model
  import opened Records

  /** Mid grey (hue 0, saturation 0, brightness 50), for a first letter the colour map lacks. */
  const Fallback: Color := HSB(0.0, 0.0, 50.0)

  /** The diameter for a total: p5's `map` from [0, maxTotal] onto [2, maxDiameter], linear
      and without clamping. */
  function Diameter(total: real, maxTotal: real): (d: real)
    requires maxTotal != 0.0
    ensures 0.0 < maxTotal && 0.0 <= total <= maxTotal ==> 2.0 <= d <= MaxDiameter
  {
    if 0.0 < maxTotal && 0.0 <= total <= maxTotal then
      DivUnit(total, maxTotal);
      total / maxTotal * (MaxDiameter - 2.0) + 2.0
    else
      total / maxTotal * (MaxDiameter - 2.0) + 2.0
  }

  lemma DivUnit(a: real, m: real)
    requires 0.0 < m && 0.0 <= a <= m
    ensures 0.0 <= a / m <= 1.0
  {
    var q := a / m;
    assert q * m == a;
  }

  /** A larger total never gives a smaller circle. */
  lemma DiameterMonotone(t1: real, t2: real, maxTotal: real)
    requires 0.0 < maxTotal && t1 <= t2
    ensures Diameter(t1, maxTotal) <= Diameter(t2, maxTotal)
  {
    DivMono(t1, t2, maxTotal);
  }

  lemma DivMono(a: real, b: real, m: real)
    requires 0.0 < m && a <= b
    ensures a / m <= b / m
  {
    var p, q := a / m, b / m;
    assert p * m == a && q * m == b;
    assert (q - p) * m == b - a;
  }

  /** The hue of the `i`-th of `n` letters: p5's `map` from [0, n] onto [0, 360]. */
  function Hue(i: nat, n: nat): (h: real)
    requires i < n
    ensures 0.0 <= h < 360.0
  {
    var q := (i as real - 0.0) / (n as real - 0.0);
    DivUnit(i as real, n as real);
    assert q < 1.0 by {
      assert q * (n as real) == i as real;
    }
    q * (360.0 - 0.0) + 0.0
  }

  /** Later letters get strictly larger hues. */
  lemma HueIncreasing(i: nat, j: nat, n: nat)
    requires i < j < n
    ensures Hue(i, n) < Hue(j, n)
  {
    var qi, qj := i as real / n as real, j as real / n as real;
    assert qi * (n as real) == i as real && qj * (n as real) == j as real;
    if qj <= qi {
      assert qj * (n as real) <= qi * (n as real);
    }
  }

  /** The upper-cased first character of a surname, which picks its colour. */
  function FirstLetter(s: Surname): char
    requires s.name != []
  {
    UpperChar(s.name[0])
  }

  function FirstLetters(ss: seq<Surname>): (ls: seq<char>)
    requires forall i :: 0 <= i < |ss| ==> ss[i].name != []
    ensures |ls| == |ss| && forall i :: 0 <= i < |ss| ==> ls[i] == FirstLetter(ss[i])
  {
    seq(|ss|, i requires 0 <= i < |ss| => FirstLetter(ss[i]))
  }

  /** `uniqueLetters`: the distinct first letters in order of first appearance. */
  function UniqueLetters(ss: seq<Surname>): seq<char>
    requires forall i :: 0 <= i < |ss| ==> ss[i].name != []
  {
    Dedup(FirstLetters(ss))
  }

  /** The colour of a first letter: the `k`-th of the `n` unique letters has hue `Hue(k, n)`
      at saturation and brightness 80; a letter not in the list gets the grey fallback. */
  function LetterColor(letters: seq<char>, c: char): Color {
    var k := IndexOf(letters, c);
    if k < |letters| then HSB(Hue(k, |letters|), 80.0, 80.0) else Fallback
  }

  /** The colour map covers every surname (the gray fallback is never used), two surnames
      share a colour exactly when they share a first letter, and a letter that turns up
      earlier in the list gets a smaller hue. */
  lemma {:induction false} LetterColours(ss: seq<Surname>)
    requires forall i :: 0 <= i < |ss| ==> ss[i].name != []
    ensures forall i :: 0 <= i < |ss| ==>
              var c := LetterColor(UniqueLetters(ss), FirstLetter(ss[i]));
              c != Fallback && c.sat == 80.0 && c.bri == 80.0 && 0.0 <= c.hue < 360.0
    ensures forall i, j :: 0 <= i < |ss| && 0 <= j < |ss| ==>
              (LetterColor(UniqueLetters(ss), FirstLetter(ss[i])) == LetterColor(UniqueLetters(ss), FirstLetter(ss[j]))
               <==> FirstLetter(ss[i]) == FirstLetter(ss[j]))
    ensures forall i, j ::
              (0 <= i < |ss| && 0 <= j < |ss| &&
               IndexOf(FirstLetters(ss), FirstLetter(ss[i])) < IndexOf(FirstLetters(ss), FirstLetter(ss[j])))
              ==> LetterColor(UniqueLetters(ss), FirstLetter(ss[i])).hue < LetterColor(UniqueLetters(ss), FirstLetter(ss[j])).hue
  {
    var ls := FirstLetters(ss);
    var u := UniqueLetters(ss);
    forall i | 0 <= i < |ss|
      ensures IndexOf(u, FirstLetter(ss[i])) < |u|
    {
      assert ls[i] in u;
    }
    forall i, j | 0 <= i < |ss| && 0 <= j < |ss|
      ensures IndexOf(ls, FirstLetter(ss[i])) < IndexOf(ls, FirstLetter(ss[j])) ==>
              IndexOf(u, FirstLetter(ss[i])) < IndexOf(u, FirstLetter(ss[j]))
      ensures FirstLetter(ss[i]) != FirstLetter(ss[j]) ==>
              LetterColor(u, FirstLetter(ss[i])).hue != LetterColor(u, FirstLetter(ss[j])).hue
    {
      var a, b := IndexOf(u, FirstLetter(ss[i])), IndexOf(u, FirstLetter(ss[j]));
      assert ls[i] in u && ls[j] in u;
      if a < b {
        HueIncreasing(a, b, |u|);
      } else if b < a {
        HueIncreasing(b, a, |u|);
      }
    }
    forall i, j | 0 <= i < |ss| && 0 <= j < |ss| &&
                  IndexOf(ls, FirstLetter(ss[i])) < IndexOf(ls, FirstLetter(ss[j]))
      ensures LetterColor(u, FirstLetter(ss[i])).hue < LetterColor(u, FirstLetter(ss[j])).hue
    {
      var a, b := IndexOf(u, FirstLetter(ss[i])), IndexOf(u, FirstLetter(ss[j]));
      assert ls[i] in u && ls[j] in u;
      HueIncreasing(a, b, |u|);
    }
  }

  /** What the packing loop reads besides the surname list. */
  datatype Shelf = Shelf(letters: seq<char>, maxTotal: real, elite: seq<EliteEntry>, width: real)

  /** Where a circle goes when the cursor stands at `(x, y)`: if its diameter would carry
      it past `width - margin` it starts the next shelf at the margin, one row step
      lower; otherwise its left edge is the cursor. */
  predicate Follows(c: Circle, x: real, y: real, width: real) {
    if x + 2.0 * c.r > width - Margin then c.Left() == Margin && c.pos.y == y + RowStep
    else c.Left() == x && c.pos.y == y
  }

  /** Each circle after the first follows the previous one's right edge plus `spacing`, on
      the previous one's shelf. */
  predicate Chained(cs: seq<Circle>, width: real) {
    forall i :: 0 < i < |cs| ==> Follows(cs[i], cs[i - 1].Right() + Spacing, cs[i - 1].pos.y, width)
  }

  /** `c` is the circle `layoutCircles` makes for surname `s`: radius from the total,
      name and totals copied, elite count looked up, colour from the first letter, current
      position and colour equal to the original ones, and no target yet. */
  predicate Depicts(c: Circle, s: Surname, sh: Shelf)
    requires sh.maxTotal != 0.0 && s.name != []
  {
    && c.r == Diameter(s.total, sh.maxTotal) / 2.0
    && c.surname == s.name && c.total == s.total
    && c.eliteTotal == EliteTotal(sh.elite, s.name)
    && c.originalPos == c.pos
    && c.color == LetterColor(sh.letters, FirstLetter(s)) && c.originalColor == c.color
    && c.target == None
  }

  /** The loop of `layoutCircles` from cursor `(x, y)`: one circle per surname, in order,
      each following its predecessor. */
  function Pack(ss: seq<Surname>, x: real, y: real, sh: Shelf): (cs: seq<Circle>)
    requires |ss| > 0 ==> sh.maxTotal != 0.0
    requires forall i :: 0 <= i < |ss| ==> ss[i].name != []
    ensures |cs| == |ss|
    ensures forall i :: 0 <= i < |ss| ==> Depicts(cs[i], ss[i], sh)
    ensures |cs| > 0 ==> Follows(cs[0], x, y, sh.width)
    ensures Chained(cs, sh.width)
    decreases |ss|
  {
    if |ss| == 0 then []
    else
      var d := Diameter(ss[0].total, sh.maxTotal);
      var wrap := x + d > sh.width - Margin;
      var left := if wrap then Margin else x;
      var row := if wrap then y + RowStep else y;
      var r := d / 2.0;
      var col := LetterColor(sh.letters, FirstLetter(ss[0]));
      var centre := Point(left + r, row);
      var c := Circle(centre, r, ss[0].name, ss[0].total, EliteTotal(sh.elite, ss[0].name), centre, col, col, None);
      var rest := Pack(ss[1..], left + d + Spacing, row, sh);
      PackCons(c, rest, ss, sh);
      [c] + rest
  }

  /** Helper for `Pack`: the facts about the rest of the list extend to the whole. */
  lemma PackCons(c: Circle, rest: seq<Circle>, ss: seq<Surname>, sh: Shelf)
    requires |ss| > 0 && sh.maxTotal != 0.0
    requires forall i :: 0 <= i < |ss| ==> ss[i].name != []
    requires Depicts(c, ss[0], sh)
    requires |rest| == |ss| - 1
    requires forall i :: 0 <= i < |rest| ==> Depicts(rest[i], ss[1..][i], sh)
    requires |rest| > 0 ==> Follows(rest[0], c.Right() + Spacing, c.pos.y, sh.width)
    requires Chained(rest, sh.width)
    ensures forall i :: 0 <= i < |ss| ==> Depicts(([c] + rest)[i], ss[i], sh)
    ensures Chained([c] + rest, sh.width)
  {
    DepictsCons(c, rest, ss, sh);
    ChainedCons(c, rest, sh.width);
  }

  lemma DepictsCons(c: Circle, rest: seq<Circle>, ss: seq<Surname>, sh: Shelf)
    requires |ss| > 0 && sh.maxTotal != 0.0
    requires forall i :: 0 <= i < |ss| ==> ss[i].name != []
    requires Depicts(c, ss[0], sh)
    requires |rest| == |ss| - 1
    requires forall i :: 0 <= i < |rest| ==> Depicts(rest[i], ss[1..][i], sh)
    ensures forall i :: 0 <= i < |ss| ==> Depicts(([c] + rest)[i], ss[i], sh)
  {
    var ok := (a: Circle, s: Surname) => s.name != [] && sh.maxTotal != 0.0 && Depicts(a, s, sh);
    ConsEach(c, rest, ss, ok);
    assert forall i :: 0 <= i < |ss| ==> ok(([c] + rest)[i], ss[i]);
  }

  /** A relation that holds of a head pair and of the tails pairwise holds of the conses. */
  lemma ConsEach<A, B>(c: A, rest: seq<A>, ss: seq<B>, ok: (A, B) -> bool)
    requires |ss| > 0 && |rest| == |ss| - 1
    requires ok(c, ss[0])
    requires forall i :: 0 <= i < |rest| ==> ok(rest[i], ss[1..][i])
    ensures forall i :: 0 <= i < |ss| ==> ok(([c] + rest)[i], ss[i])
  {
    forall i | 0 < i < |ss|
      ensures ok(([c] + rest)[i], ss[i])
    {
      assert ([c] + rest)[i] == rest[i - 1] && ss[i] == ss[1..][i - 1];
    }
  }

  lemma ChainedCons(c: Circle, rest: seq<Circle>, width: real)
    requires |rest| > 0 ==> Follows(rest[0], c.Right() + Spacing, c.pos.y, width)
    requires Chained(rest, width)
    ensures Chained([c] + rest, width)
  {
    var cs := [c] + rest;
    forall i | 0 < i < |cs|
      ensures Follows(cs[i], cs[i - 1].Right() + Spacing, cs[i - 1].pos.y, width)
    {
      assert cs[i] == rest[i - 1];
      if i > 1 {
        assert cs[i - 1] == rest[i - 2];
      }
    }
  }

  /** What `layoutCircles` needs of the data: names to take a first letter from, and a
      non-zero maximum to divide by. */
  predicate Packable(d: Dataset) {
    && (|d.surnames| > 0 ==> d.maxTotal != 0.0)
    && (forall i :: 0 <= i < |d.surnames| ==> d.surnames[i].name != [])
  }

  /** `layoutCircles`: start at `(margin, margin + 65)` and pack every surname. No circle
      crosses `width - margin` unless it is the first on its shelf. */
  function Layout(d: Dataset, width: real): (cs: seq<Circle>)
    requires Packable(d)
    ensures |cs| == |d.surnames|
    ensures forall i :: 0 <= i < |cs| ==>
              Depicts(cs[i], d.surnames[i], Shelf(UniqueLetters(d.surnames), d.maxTotal, d.elite, width))
    ensures forall i :: 0 <= i < |cs| ==>
              cs[i].pos == cs[i].originalPos && cs[i].color == cs[i].originalColor && cs[i].target.None?
    ensures |cs| > 0 ==> Follows(cs[0], Margin, TopRow, width)
    ensures Chained(cs, width)
    ensures forall i :: 0 <= i < |cs| ==> cs[i].Right() <= width - Margin || cs[i].Left() == Margin
  {
    var sh := Shelf(UniqueLetters(d.surnames), d.maxTotal, d.elite, width);
    var cs := Pack(d.surnames, Margin, TopRow, sh);
    forall i | 0 <= i < |cs|
      ensures cs[i].Right() <= width - Margin || cs[i].Left() == Margin
    {
      if i > 0 {
        assert Follows(cs[i], cs[i - 1].Right() + Spacing, cs[i - 1].pos.y, width);
      }
    }
    cs
  }

  /** Shelves run downwards: a later circle is never on a higher shelf. */
  lemma {:induction false} ShelvesDescend(cs: seq<Circle>, width: real)
    requires Chained(cs, width)
    ensures forall i, j :: 0 <= i <= j < |cs| ==> cs[i].pos.y <= cs[j].pos.y
    decreases |cs|
  {
    if |cs| > 1 {
      var n := |cs| - 1;
      var p := cs[..n];
      assert Chained(p, width) by {
        forall i | 0 < i < |p|
          ensures Follows(p[i], p[i - 1].Right() + Spacing, p[i - 1].pos.y, width)
        {
          assert p[i] == cs[i] && p[i - 1] == cs[i - 1];
        }
      }
      ShelvesDescend(p, width);
      assert Follows(cs[n], cs[n - 1].Right() + Spacing, cs[n - 1].pos.y, width);
      forall i, j | 0 <= i <= j < |cs|
        ensures cs[i].pos.y <= cs[j].pos.y
      {
        if j < n {
          assert cs[i] == p[i] && cs[j] == p[j];
        } else if i < n {
          assert cs[i] == p[i] && cs[n - 1] == p[n - 1];
        }
      }
    }
  }

  /** Two circles on the same shelf do not overlap horizontally: the later one starts at
      least `spacing` after the earlier one ends. */
  lemma {:induction false} SameShelfApart(cs: seq<Circle>, width: real)
    requires Chained(cs, width)
    requires forall i :: 0 <= i < |cs| ==> 0.0 <= cs[i].r
    ensures forall i, j :: 0 <= i < j < |cs| && cs[i].pos.y == cs[j].pos.y ==>
              cs[i].Right() + Spacing <= cs[j].Left()
    decreases |cs|
  {
    if |cs| > 1 {
      var n := |cs| - 1;
      var p := cs[..n];
      assert Chained(p, width) by {
        forall i | 0 < i < |p|
          ensures Follows(p[i], p[i - 1].Right() + Spacing, p[i - 1].pos.y, width)
        {
          assert p[i] == cs[i] && p[i - 1] == cs[i - 1];
        }
      }
      SameShelfApart(p, width);
      ShelvesDescend(cs, width);
      assert Follows(cs[n], cs[n - 1].Right() + Spacing, cs[n - 1].pos.y, width);
      forall i, j | 0 <= i < j < |cs| && cs[i].pos.y == cs[j].pos.y
        ensures cs[i].Right() + Spacing <= cs[j].Left()
      {
        if j < n {
          assert cs[i] == p[i] && cs[j] == p[j];
        } else {
          assert cs[i].pos.y <= cs[n - 1].pos.y <= cs[n].pos.y;
          assert cs[n].Left() == cs[n - 1].Right() + Spacing;
          if i < n - 1 {
            assert cs[i] == p[i] && cs[n - 1] == p[n - 1];
          }
        }
      }
    }
  }

  /** The shelf facts for the alphabetical view itself: with totals between 0 and the
      positive maximum, shelves descend and circles sharing a shelf keep apart. */
  lemma ShelvesOfLayout(d: Dataset, width: real)
    requires Packable(d)
    requires |d.surnames| > 0 ==> 0.0 < d.maxTotal
    requires forall i :: 0 <= i < |d.surnames| ==> 0.0 <= d.surnames[i].total <= d.maxTotal
    ensures var cs := Layout(d, width);
            forall i, j :: 0 <= i <= j < |cs| ==> cs[i].pos.y <= cs[j].pos.y
    ensures var cs := Layout(d, width);
            forall i, j :: 0 <= i < j < |cs| && cs[i].pos.y == cs[j].pos.y ==> cs[i].Right() + Spacing <= cs[j].Left()
    ensures var cs := Layout(d, width);
            forall i :: 0 <= i < |cs| ==> 1.0 <= cs[i].r <= MaxDiameter / 2.0
  {
    var cs := Layout(d, width);
    forall i | 0 <= i < |cs|
      ensures 1.0 <= cs[i].r <= MaxDiameter / 2.0
    {
      var dm := Diameter(d.surnames[i].total, d.maxTotal);
      assert cs[i].r == dm / 2.0;
    }
    ShelvesDescend(cs, width);
    SameShelfApart(cs, width);
  }

  /** Every circle aimed at its own slot and colour, nothing else changed. */
  function AimAtSlots(cs: seq<Circle>): (out: seq<Circle>)
    requires forall i :: 0 <= i < |cs| ==> cs[i].pos == cs[i].originalPos && cs[i].color == cs[i].originalColor
    ensures |out| == |cs|
    ensures forall i :: 0 <= i < |cs| ==>
              && out[i] == cs[i].(target := out[i].target)
              && out[i].target == Some(Target(out[i].originalPos, out[i].originalColor))
              && out[i].pos == out[i].originalPos && out[i].color == out[i].originalColor
  {
    seq(|cs|, i requires 0 <= i < |cs| => cs[i].(target := Some(Target(cs[i].originalPos, cs[i].originalColor))))
  }

  /** `restoreOriginalLayout`: rebuild the packing (so every circle is back at its slot)
      and aim every circle at its own slot and colour; the view flag goes off. */
  function RestoreOriginalLayout(d: Dataset, width: real): (st: AppState)
    requires Packable(d)
    ensures !st.isEliteView
    ensures |st.circles| == |d.surnames|
    ensures var cs := Layout(d, width);
            forall i :: 0 <= i < |st.circles| ==>
              var c := st.circles[i];
              && c == cs[i].(target := c.target)
              && c.target == Some(Target(c.originalPos, c.originalColor))
              && c.pos == c.originalPos && c.color == c.originalColor
  {
    var cs := Layout(d, width);
    AppState(AimAtSlots(cs), false)
  }
}
