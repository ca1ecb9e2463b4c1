/** One frame of `draw`: every circle with a target eases 7% of the way towards it, the
    mouse picks the last circle it lies inside, and that circle gets a tooltip box. */
module Frame {
  import opened Basics
  import opened Geometry
  import opened Text
  import opened Model

  /** The `amt` of every `lerp` and `lerpColor` in `draw`. */
  const Ease: real := 0.07
  /** What is left of a gap after one frame. */
  const Keep: real := 1.0 - Ease
  /** Tooltip padding around the text. */
  const Padding: real := 6.0
  /** Height of one tooltip line. */
  const LineHeight: real := 18.0
  /** Horizontal gap between a circle and its tooltip. */
  const TipGap: real := 5.0

  /** `lerpColor` in HSB mode, component by component. */
  function LerpColor(a: Color, b: Color, amt: real): Color {
    HSB(Lerp(a.hue, b.hue, amt), Lerp(a.sat, b.sat, amt), Lerp(a.bri, b.bri, amt))
  }

  /** The easing step of one circle. Only position and colour change; without a target
      nothing changes; with one, every remaining gap (each coordinate, each colour
      component) is 0.93 times what it was. */
  function Step(c: Circle): (d: Circle)
    ensures d == c.(pos := d.pos, color := d.color)
    ensures c.target.None? ==> d == c
    ensures c.target.Some? ==>
              var t := c.target.value;
              && t.pos.x - d.pos.x == Keep * (t.pos.x - c.pos.x)
              && t.pos.y - d.pos.y == Keep * (t.pos.y - c.pos.y)
              && t.color.hue - d.color.hue == Keep * (t.color.hue - c.color.hue)
              && t.color.sat - d.color.sat == Keep * (t.color.sat - c.color.sat)
              && t.color.bri - d.color.bri == Keep * (t.color.bri - c.color.bri)
  {
    match c.target
    case None => c
    case Some(t) =>
      c.(pos := Point(Lerp(c.pos.x, t.pos.x, Ease), Lerp(c.pos.y, t.pos.y, Ease)),
         color := LerpColor(c.color, t.color, Ease))
  }

  /** The distance to the target shrinks by the factor 0.93 (its square by 0.8649), so it
      never grows, and the new position lies between the old one and the target on each
      axis: the step never overshoots. */
  lemma StepApproaches(c: Circle)
    requires c.target.Some?
    ensures var t, d := c.target.value.pos, Step(c).pos;
            && SqDist(d, t) == Keep * Keep * SqDist(c.pos, t)
            && SqDist(d, t) <= SqDist(c.pos, t)
            && Min(c.pos.x, t.x) <= d.x <= Max(c.pos.x, t.x)
            && Min(c.pos.y, t.y) <= d.y <= Max(c.pos.y, t.y)
  {
    var t, d := c.target.value.pos, Step(c).pos;
    var gx, gy := t.x - c.pos.x, t.y - c.pos.y;
    assert t.x - d.x == Keep * gx && t.y - d.y == Keep * gy;
    assert SqDist(d, t) == (Keep * gx) * (Keep * gx) + (Keep * gy) * (Keep * gy);
    assert SqDist(c.pos, t) == gx * gx + gy * gy;
    assert SqDist(d, t) == Keep * Keep * (gx * gx + gy * gy);
    MulMono(gx * gx + gy * gy, Keep * Keep, 1.0);
  }

  /** A circle already at its target, in its target colour, stays put: the state
      `restoreOriginalLayout` leaves is a fixed point of the frame. */
  lemma StepAtTarget(c: Circle)
    requires c.target.Some? && c.pos == c.target.value.pos && c.color == c.target.value.color
    ensures Step(c) == c
  {
  }

  function Pow(b: real, n: nat): real {
    if n == 0 then 1.0 else b * Pow(b, n - 1)
  }

  /** `n` frames of easing. */
  function Frames(c: Circle, n: nat): Circle {
    if n == 0 then c else Step(Frames(c, n - 1))
  }

  /** What is left to go towards the target: each coordinate and each colour component. */
  datatype Gaps = Gaps(x: real, y: real, hue: real, sat: real, bri: real)

  function GapsOf(c: Circle): Gaps
    requires c.target.Some?
  {
    var t := c.target.value;
    Gaps(t.pos.x - c.pos.x, t.pos.y - c.pos.y,
         t.color.hue - c.color.hue, t.color.sat - c.color.sat, t.color.bri - c.color.bri)
  }

  function Scale(k: real, g: Gaps): Gaps {
    Gaps(k * g.x, k * g.y, k * g.hue, k * g.sat, k * g.bri)
  }

  /** After `n` frames the target is unchanged and every gap is `0.93^n` times the first
      one. */
  lemma {:induction false} FramesShrink(c: Circle, n: nat)
    requires c.target.Some?
    ensures Frames(c, n).target == c.target
    ensures GapsOf(Frames(c, n)) == Scale(Pow(Keep, n), GapsOf(c))
  {
    if n > 0 {
      FramesShrink(c, n - 1);
      var p := Frames(c, n - 1);
      StepScales(p);
      ScaleTwice(Keep, Pow(Keep, n - 1), GapsOf(c));
    }
  }

  /** One frame scales every gap by 0.93. */
  lemma StepScales(c: Circle)
    requires c.target.Some?
    ensures GapsOf(Step(c)) == Scale(Keep, GapsOf(c))
  {
  }

  lemma ScaleTwice(a: real, b: real, g: Gaps)
    ensures Scale(a, Scale(b, g)) == Scale(a * b, g)
  {
    assert a * (b * g.x) == (a * b) * g.x;
    assert a * (b * g.y) == (a * b) * g.y;
    assert a * (b * g.hue) == (a * b) * g.hue;
    assert a * (b * g.sat) == (a * b) * g.sat;
    assert a * (b * g.bri) == (a * b) * g.bri;
  }

  /** Bernoulli's bound for the easing factor: `0.93^n * (1 + 0.07 n) <= 1`, so after `n`
      frames at most the fraction `1 / (1 + 0.07 n)` of a gap is left, and the factor stays
      positive, so a gap never closes exactly or changes sign. */
  lemma {:induction false} KeepPowBound(n: nat)
    ensures 0.0 < Pow(Keep, n)
    ensures Pow(Keep, n) * (1.0 + Ease * n as real) <= 1.0
  {
    if n > 0 {
      KeepPowBound(n - 1);
      var q, m := Pow(Keep, n - 1), (n - 1) as real;
      assert Pow(Keep, n) == Keep * q;
      assert Keep * q * (1.0 + Ease * (m + 1.0)) == q * (1.0 + Ease * m) - q * Ease * Ease * (m + 1.0);
      assert 0.0 <= q * (Ease * Ease * (m + 1.0));
    }
  }

  /** The mouse lies strictly inside the circle. */
  predicate Hit(c: Circle, mouse: Point) {
    DistLess(mouse, c.pos, c.r)
  }

  /** What `draw` puts on the screen beside the hovered circle: the box and the top-left
      corner of each text line. */
  datatype Tooltip = Tooltip(x: real, y: real, w: real, h: real, lines: seq<string>, anchors: seq<Point>)

  /** The tooltip text: the surname, the total, and in the elite view the assembly count
      when it is positive. `nf` formats a number as a whole number, as p5's `nf` with no digits
      after the point does. */
  function Label(c: Circle, isEliteView: bool, nf: real -> string): string {
    c.surname + "\nTotal: " + nf(c.total)
      + (if isEliteView && c.eliteTotal > 0.0 then "\nNum. Asambleistas: " + nf(c.eliteTotal) else "")
  }

  /** The largest of a non-empty list of widths. */
  function MaxOf(ws: seq<real>): (m: real)
    requires |ws| > 0
    ensures forall i :: 0 <= i < |ws| ==> ws[i] <= m
    ensures exists i :: 0 <= i < |ws| && ws[i] == m
  {
    if |ws| == 1 then ws[0]
    else
      var rest := MaxOf(ws[1..]);
      assert forall i :: 1 <= i < |ws| ==> ws[i] == ws[1..][i - 1];
      if ws[0] < rest then rest else ws[0]
  }

  /** The widest line's width plus a padding on each side: wide enough for every line, and
      exactly as wide as the widest one needs. */
  function BoxWidth(lines: seq<string>, textWidth: string -> real): (w: real)
    requires |lines| > 0
    ensures forall i :: 0 <= i < |lines| ==> textWidth(lines[i]) + 2.0 * Padding <= w
    ensures exists i :: 0 <= i < |lines| && textWidth(lines[i]) + 2.0 * Padding == w
  {
    var widths := seq(|lines|, i requires 0 <= i < |lines| => textWidth(lines[i]));
    var m := MaxOf(widths);
    assert forall k :: 0 <= k < |lines| ==> widths[k] == textWidth(lines[k]);
    var i :| 0 <= i < |widths| && widths[i] == m;
    assert textWidth(lines[i]) + 2.0 * Padding == m + 2.0 * Padding;
    m + 2.0 * Padding
  }

  /** Where the `n` lines of a box with top-left corner `(x, y)` start: one padding in,
      18 apart, each line inside a box of height `18 n + 12`. */
  function Anchors(x: real, y: real, n: nat): (ps: seq<Point>)
    ensures |ps| == n
    ensures forall i :: 0 <= i < n ==>
              && ps[i].x == x + Padding
              && ps[i].y == y + Padding + i as real * LineHeight
              && y + Padding <= ps[i].y
              && ps[i].y + LineHeight + Padding <= y + (n as real * LineHeight + 2.0 * Padding)
  {
    seq(n, i requires 0 <= i < n => Point(x + Padding, y + Padding + i as real * LineHeight))
  }

  /** The tooltip of circle `c`. The label is split at line breaks; the box is as wide as
      the widest line plus padding and as tall as 18 per line plus padding; it sits 5 to the
      left of the circle when the circle is in the right quarter of the canvas and 5 to
      its right otherwise, centred on it vertically. `textWidth` measures a line. */
  function TooltipFor(c: Circle, isEliteView: bool, width: real, nf: real -> string,
                      textWidth: string -> real): (tip: Tooltip)
    ensures |tip.lines| >= 1
    ensures Join(tip.lines, '\n') == Label(c, isEliteView, nf)
    ensures forall i :: 0 <= i < |tip.lines| ==> '\n' !in tip.lines[i]
    ensures tip.h == |tip.lines| as real * LineHeight + 2.0 * Padding
    ensures forall i :: 0 <= i < |tip.lines| ==> textWidth(tip.lines[i]) + 2.0 * Padding <= tip.w
    ensures exists i :: 0 <= i < |tip.lines| && textWidth(tip.lines[i]) + 2.0 * Padding == tip.w
    ensures c.pos.x > width * 0.75 ==> tip.x + tip.w + TipGap == c.Left()
    ensures !(c.pos.x > width * 0.75) ==> tip.x == c.Right() + TipGap
    ensures 2.0 * tip.y + tip.h == 2.0 * c.pos.y
    ensures |tip.anchors| == |tip.lines|
    ensures forall i :: 0 <= i < |tip.anchors| ==>
              && tip.anchors[i].x == tip.x + Padding
              && tip.anchors[i].y == tip.y + Padding + i as real * LineHeight
              && tip.y + Padding <= tip.anchors[i].y
              && tip.anchors[i].y + LineHeight + Padding <= tip.y + tip.h
  {
    var lines := Split(Label(c, isEliteView, nf), '\n');
    var boxW := BoxWidth(lines, textWidth);
    var boxH := |lines| as real * LineHeight + Padding * 2.0;
    var x := if c.pos.x > width * 0.75 then c.pos.x - c.r - boxW - TipGap else c.pos.x + c.r + TipGap;
    var y := c.pos.y - boxH / 2.0;
    Tooltip(x, y, boxW, boxH, lines, Anchors(x, y, |lines|))
  }

  /** The box has 3 lines exactly in the elite view with a positive assembly count, and 2
      otherwise, as long as neither the surname nor a formatted number holds a line
      break. */
  lemma TooltipLines(c: Circle, isEliteView: bool, width: real, nf: real -> string, textWidth: string -> real)
    requires '\n' !in c.surname
    requires forall x :: '\n' !in nf(x)
    ensures var tip := TooltipFor(c, isEliteView, width, nf, textWidth);
            && (|tip.lines| == 3 <==> isEliteView && c.eliteTotal > 0.0)
            && (|tip.lines| == 2 <==> !(isEliteView && c.eliteTotal > 0.0))
  {
    var total := "Total: " + nf(c.total);
    var count := "Num. Asambleistas: " + nf(c.eliteTotal);
    assert '\n' !in total && '\n' !in count;
    assert "\nTotal: " == ['\n'] + "Total: ";
    assert "\nNum. Asambleistas: " == ['\n'] + "Num. Asambleistas: ";
    var txt := Label(c, isEliteView, nf);
    if isEliteView && c.eliteTotal > 0.0 {
      assert txt == c.surname + ['\n'] + (total + ['\n'] + count);
      ThreeLines(c.surname, total, count);
    } else {
      assert txt == c.surname + ['\n'] + total;
      TwoLines(c.surname, total);
    }
  }

  lemma ThreeLines(a: string, b: string, c: string)
    requires '\n' !in a && '\n' !in b && '\n' !in c
    ensures Split(a + ['\n'] + (b + ['\n'] + c), '\n') == [a, b, c]
  {
    var parts := [a, b, c];
    assert Join(parts[2..], '\n') == c;
    assert Join(parts[1..], '\n') == b + ['\n'] + c;
    SplitJoin(parts, '\n');
  }

  lemma TwoLines(a: string, b: string)
    requires '\n' !in a && '\n' !in b
    ensures Split(a + ['\n'] + b, '\n') == [a, b]
  {
    var parts := [a, b];
    assert Join(parts[1..], '\n') == b;
    SplitJoin(parts, '\n');
  }

  /** One frame: step every circle, then find the last stepped circle under the mouse
      and, if there is one, its tooltip. The view flag is read, not changed. */
  method Draw(st: AppState, mouse: Point, width: real, nf: real -> string, textWidth: string -> real)
    returns (next: AppState, hovered: Option<nat>, tip: Option<Tooltip>)
    ensures next.isEliteView == st.isEliteView
    ensures |next.circles| == |st.circles|
    ensures forall i :: 0 <= i < |st.circles| ==> next.circles[i] == Step(st.circles[i])
    ensures hovered.None? <==> forall i :: 0 <= i < |next.circles| ==> !Hit(next.circles[i], mouse)
    ensures hovered.Some? ==>
              && hovered.value < |next.circles|
              && Hit(next.circles[hovered.value], mouse)
              && forall j :: hovered.value < j < |next.circles| ==> !Hit(next.circles[j], mouse)
    ensures tip.Some? <==> hovered.Some?
    ensures hovered.Some? ==>
              tip == Some(TooltipFor(next.circles[hovered.value], st.isEliteView, width, nf, textWidth))
  {
    var cs: seq<Circle> := [];
    hovered := None;
    var i := 0;
    while i < |st.circles|
      invariant 0 <= i <= |st.circles|
      invariant |cs| == i
      invariant forall k :: 0 <= k < i ==> cs[k] == Step(st.circles[k])
      invariant hovered.None? ==> forall k :: 0 <= k < i ==> !Hit(cs[k], mouse)
      invariant hovered.Some? ==>
                  && hovered.value < i
                  && Hit(cs[hovered.value], mouse)
                  && forall j :: hovered.value < j < i ==> !Hit(cs[j], mouse)
    {
      var c := Step(st.circles[i]);
      cs := cs + [c];
      if Hit(c, mouse) {
        hovered := Some(i);
      }
      i := i + 1;
    }
    next := AppState(cs, st.isEliteView);
    match hovered
    case None =>
      tip := None;
    case Some(h) =>
      tip := Some(TooltipFor(cs[h], st.isEliteView, width, nf, textWidth));
  }
}
