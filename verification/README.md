# Surname circles: layout engine

A model, in Dafny, of the layout engine of the p5.js sketch `Visualizacion/sketch.js`. The
sketch draws one circle per surname of a general table. Each circle is sized by how often
the surname occurs and coloured by its first letter. The sketch toggles between two views:

- the **alphabetical view** packs the sorted circles onto shelves, left to right;
- the **elite view** packs the circles of surnames that also occur among assembly members
  ("asambleístas") without overlap into a disk at the centre of the canvas, largest first,
  and scatters all others outside that disk.

Every frame, each circle eases 7% of the way towards its target. The circle under the
mouse gets a tooltip.

The model is functional. Circles are immutable records over `real`. The sketch's globals
(`circles`, `isEliteView`) become an explicit `AppState` that goes into and comes out of
each operation.

Randomness is an `Oracle`, with one stream per kind of draw:

- the polar draw of each elite try, numbered by the shared try counter;
- the jitter of the `k`-th elite circle;
- the `a`-th box draw of the `j`-th non-elite circle;
- the fallback box draw of the `j`-th non-elite circle.

Every sequence of `Math.random` values corresponds to one choice of these streams, and every
choice of streams to some sequence. The rejection loops are recursive functions that carry
their try counters.

Modules, one per file:

- `Basics`: `Option`, first occurrence, de-duplication, filtering by index.
- `Geometry`: points, squared distances, `lerp`, `random(lo, hi)`.
- `Text`: `trim`, `toUpperCase`, `split`.
- `Sorting`: a stable sort by a real-valued key, for comparators that subtract two keys.
- `Model`: the constants and the circle record.
- `Records`: the table loading in `setup`.
- `Alphabetical`: `layoutCircles` and `restoreOriginalLayout`.
- `Scatter`: `applyEliteView`.
- `Frame`: `draw`.
- `Sketch`: `setup`.

Distances are never square-rooted:

- `dist(p, q) < s` is `DistLess`;
- `dist(p, q) > s` is `DistGreater`.

`DistLessMeans` and `DistGreaterMeans` show that these agree with the true distance.

Details of the sketch's behaviour that the model keeps:

- p5's `map` does not clamp (sketch.js:65). So the radius is
  `(2 + 68 * total / maxTotal) / 2` for every total, and lies in [1, 35] only for totals
  between 0 and the maximum.
- Hues go by the order in which each upper-cased first letter first appears in the
  collation-sorted surname list (sketch.js:57-61).
- `restoreOriginalLayout` calls `layoutCircles`, which empties `circles` and builds every
  circle afresh at its slot (sketch.js:52, 77-88, 181). So the return from the elite view
  is a jump, not an eased transition.
- The elite test upper-cases the general surname but does not trim it (sketch.js:105).
  The elite keys are both trimmed and upper-cased (sketch.js:30-31).
- Every usable row gives a circle, so a surname listed twice gets two circles
  (sketch.js:39-40, 64).
- A non-elite circle whose 500 attempts all fail takes a fresh point in the canvas less
  its margin (sketch.js:170-173).
- `setup` calls `restoreOriginalLayout`, so after loading every circle already has its
  own slot as its target (sketch.js:47-48).
- p5's `random(lo, hi)` swaps reversed bounds. So `random(0, R - r)` with `r > R` draws
  from `[R - r, 0]` (sketch.js:124). p5 itself is not part of this model, and this
  behaviour is taken as that library's.

## Model

| member | source | states |
|---|---|---|
| Records.LoadSurnames | Visualizacion/sketch.js:36-42 | one record per row with a non-empty name and a numeric total, in table order, name and total copied |
| Records.LoadElite | Visualizacion/sketch.js:26-33 | one elite record per usable row, in table order, under the trimmed upper-cased name |
| Records.EliteTotal | Visualizacion/sketch.js:75 | 0 when no elite record has the upper-cased surname, otherwise the total of the first one that has it |
| Records.EliteKeyFindsItself | Visualizacion/sketch.js:30-31 | a surname spelled as an elite record's name finds the first record of that name, so its elite count is that record's total |
| Records.MaxTotal | Visualizacion/sketch.js:45 | an upper bound of every total that is itself one of the totals |
| Records.LoadDataset | Visualizacion/sketch.js:26-45 | the surname list is a permutation of the loaded records in ascending collation order with non-empty names; the elite set holds exactly the elite keys; the maximum is `MaxTotal` of the list |
| Sorting.SortBy | Visualizacion/sketch.js:44 | the result is a permutation of the input in ascending key order, and for every key the elements with that key keep their input order (a stable sort) |
| Sorting.SortByStable | Visualizacion/sketch.js:44 | for an input without repeats, two elements with equal keys come out in the order they went in |
| Sorting.SortByDistinct | Visualizacion/sketch.js:112 | sorting a list without repeats gives a list without repeats |
| Text.Trim | Visualizacion/sketch.js:30-31 | the result is a contiguous middle part of the input, everything cut off is white space, and the result neither starts nor ends with white space |
| Text.TrimIdempotent | Visualizacion/sketch.js:30-31 | trimming a trimmed name changes nothing |
| Text.Upper | Visualizacion/sketch.js:30-31 | same length, each character upper-cased; no modelled lower-case letter survives, and every other character is left as it is |
| Text.Split | Visualizacion/sketch.js:219 | at least one piece, no piece holds the separator, and joining the pieces gives the input back |
| Text.SplitJoin | Visualizacion/sketch.js:219 | splitting joined separator-free pieces gives the pieces back |
| Basics.Dedup | Visualizacion/sketch.js:57 | no repeats, the same elements as the input, in order of first appearance |
| Alphabetical.Diameter | Visualizacion/sketch.js:65 | for a positive maximum and a total between 0 and it, the diameter lies in [2, 70] |
| Alphabetical.DiameterMonotone | Visualizacion/sketch.js:65 | a larger total never gives a smaller diameter |
| Alphabetical.Hue | Visualizacion/sketch.js:60 | the hue of the `i`-th of `n` letters lies in [0, 360) |
| Alphabetical.HueIncreasing | Visualizacion/sketch.js:59-61 | later letters get strictly larger hues |
| Alphabetical.LetterColours | Visualizacion/sketch.js:57-68 | the gray fallback is never used; two surnames share a colour exactly when they share an upper-cased first letter; a letter that appears earlier gets a smaller hue |
| Alphabetical.Pack | Visualizacion/sketch.js:64-91 | one circle per surname in order, each made from its surname, the first following the start cursor and each later one following its predecessor's right edge plus spacing, wrapping when `x + diameter > width - margin` |
| Alphabetical.Layout | Visualizacion/sketch.js:51-92 | the packing starts at `(margin, margin + 65)`; every circle is made from its surname, sits at its original slot in its original colour without a target; no circle crosses `width - margin` unless it starts a shelf |
| Alphabetical.ShelvesDescend | Visualizacion/sketch.js:70-73 | in a chained packing a later circle is never on a higher shelf |
| Alphabetical.SameShelfApart | Visualizacion/sketch.js:70-90 | in a chained packing, circles on one shelf are at least `spacing` apart horizontally |
| Alphabetical.ShelvesOfLayout | Visualizacion/sketch.js:51-92 | for totals in [0, maxTotal], the alphabetical view's shelves descend, same-shelf circles keep apart, and every radius lies in [1, 35] |
| Alphabetical.RestoreOriginalLayout | Visualizacion/sketch.js:178-187 | the flag goes off; each circle is the freshly packed one with its target set to its own original position and colour, and it already sits there |
| Scatter.FocusOf | Visualizacion/sketch.js:97-99 | the centre is half the canvas size; the radius is a third of the shorter side |
| Scatter.CandidateInside | Visualizacion/sketch.js:123-126 | a valid polar draw proposes a centre at most `R - r` from the canvas centre |
| Scatter.JitterNear | Visualizacion/sketch.js:148-149 | a valid jitter lies within 10 of the centre on each axis |
| Scatter.BoxPointInBox | Visualizacion/sketch.js:159-160 | a valid box draw lies in the canvas less its margin |
| Scatter.SearchElite | Visualizacion/sketch.js:122-145 | the shared counter never passes 5000; the accepted centre is the candidate of the last try and clears every packed circle by the sum of radii plus 2; every earlier candidate was rejected; without acceptance the budget is spent |
| Scatter.PlaceElite | Visualizacion/sketch.js:114-152 | one placement per elite circle in sorted order; the counter stays within 5000; every searched centre was a candidate and is packed; searched centres are pairwise apart by the sum of radii plus 2; a fallback is the jitter and happens only when the budget is spent; successes form a prefix |
| Scatter.EliteApart | Visualizacion/sketch.js:128-134 | in true distances, two searched elite centres are at least `r + r' + 2` apart |
| Scatter.SearchOutside | Visualizacion/sketch.js:158-168 | at most 500 attempts; the accepted point is the box draw of the last attempt and lies outside `R + r + 10`; every earlier point was rejected; without acceptance all 500 are spent |
| Scatter.OutsideMeans | Visualizacion/sketch.js:161 | in true distances, an accepted non-elite point is farther than `R + r + 10` from the centre |
| Scatter.PlaceOther | Visualizacion/sketch.js:154-175 | an accepted point passed the distance test and is one of the 500 box draws; a fallback is the spare box draw, taken only when all 500 draws failed |
| Scatter.Assign | Visualizacion/sketch.js:137-139 | only targets change; circles without a placement are untouched; with distinct indices each placed circle gets its placement's point and the colour |
| Scatter.EliteIndices | Visualizacion/sketch.js:104-110 | the elite circles' indices, increasing, each elite circle included |
| Scatter.OtherIndices | Visualizacion/sketch.js:104-110 | the other circles' indices, increasing, each non-elite circle included |
| Scatter.Partition | Visualizacion/sketch.js:104-110 | every circle is in exactly one group, the one upper-cased-name membership says, and the group sizes add up to the number of circles |
| Scatter.EliteOrder | Visualizacion/sketch.js:112 | a permutation of the elite indices, without repeats, by non-increasing radius, circles of equal radius in `circles` order |
| Scatter.ApplyEliteView | Visualizacion/sketch.js:94-176 | the flag goes on; only targets change; every circle gets a target; its colour is `(0,0,15)` exactly for elite circles and `(0,0,70)` exactly for the others; each elite circle's target is its elite-loop placement in the dark colour, each other circle's its non-elite placement in the light colour |
| Scatter.EliteTargetsNear | Visualizacion/sketch.js:118-152 | for valid draws and radii up to `R`, a searched elite circle lies inside the elite disk and a fallback within 10 of the centre on each axis |
| Scatter.OtherTargetsInBox | Visualizacion/sketch.js:154-175 | for valid draws every non-elite target lies in the canvas less its margin, and an accepted one outside `R + r + 10` |
| Frame.Step | Visualizacion/sketch.js:193-198 | only position and colour change; without a target nothing changes; with one, every remaining coordinate and colour gap becomes 0.93 times itself |
| Frame.StepApproaches | Visualizacion/sketch.js:195-196 | the squared distance to the target shrinks by 0.8649, so it never grows, and the new position lies between the old one and the target |
| Frame.FramesShrink | Visualizacion/sketch.js:193-198 | after `n` frames the target is unchanged and every gap is `0.93^n` times the first |
| Frame.KeepPowBound | Visualizacion/sketch.js:195-197 | `0.93^n` is positive and at most `1 / (1 + 0.07 n)` |
| Frame.BoxWidth | Visualizacion/sketch.js:220-221 | the box is wide enough for every line plus padding and exactly as wide as the widest needs |
| Frame.Anchors | Visualizacion/sketch.js:231-232 | line `i` starts one padding in and `18 i` down, inside a box of height `18 n + 12` |
| Frame.TooltipFor | Visualizacion/sketch.js:209-233 | the lines join back to the label; height `18 * lines + 12`; the box ends 5 left of the circle when it is in the right quarter, else starts 5 right of it; vertically centred on the circle |
| Frame.TooltipLines | Visualizacion/sketch.js:210-214 | with no line break in the name or the numbers, 3 lines exactly in the elite view with a positive assembly count, otherwise 2 |
| Frame.Draw | Visualizacion/sketch.js:189-233 | every circle is stepped; the hovered circle is the last stepped circle the mouse lies strictly inside, or none exactly when there is no such circle; a tooltip exactly when one is hovered |
| Geometry.DistLessMeans | Visualizacion/sketch.js:130 | the squared comparison agrees with `dist(p, q) < s` for the true distance |
| Geometry.DistGreaterMeans | Visualizacion/sketch.js:161 | the squared comparison agrees with `dist(p, q) > s` for the true distance |
| Geometry.RandomIn | Visualizacion/sketch.js:124 | for a draw in [0, 1) the value lies between the two bounds |
| Sketch.Setup | Visualizacion/sketch.js:18-49 | the flag is off; the circles are the alphabetical packing of the loaded dataset, each aimed at its own slot and colour; they carry exactly the usable general records, in collation order; each circle's elite count is looked up in the elite table |

## Left out

- Drawing is left out because it has no effect on the layout: `createCanvas`, `ellipse`,
  `rect`, `text`, `fill`, `background`, the "ECUADOR" banner and `windowResized`. The canvas
  size is a `Viewport` parameter.
- Reading the tables and parsing numbers with `loadTable` and `float` is library I/O. A row
  arrives already parsed, as an optional name and an optional number.
- `localeCompare` belongs to the locale library. The collation is a parameter
  `collation: string -> real`, and `a.localeCompare(b)` has the sign of
  `collation(a) - collation(b)`. Any countable total order fits this form.
- `random`, `cos`, `sin` and `TWO_PI` are oracle draws. The model does not describe
  trigonometry or uniformity. `Valid` states only what the draws must satisfy: a unit
  direction and a uniform draw in [0, 1).
- `dist`'s square root is not needed: comparisons use squared distances.
- IEEE floating point is not modelled: coordinates are `real`. One consequence: a largest
  total of 0 gives `0 / 0`, which is NaN in the sketch. The model requires a non-zero
  maximum whenever there are surnames (`Packable`), and an empty list's `-Infinity`
  maximum is replaced by 0, which no layout reads.
- `lerpColor` in HSB mode is modelled component by component, without p5's hue
  wrap-around.
- `textWidth` and `nf` are font measurement and number formatting. They are the
  parameters `textWidth` and `nf`.
- Text.Upper: only ASCII and Latin-1 lower-case letters are mapped; other characters are
  left as they are. This includes sharp s (U+00DF), which JavaScript turns into the two
  letters "SS", so for such a name the model's key is one character shorter and may not
  match the same elite record. Strings are sequences of Unicode scalar values, while
  `apellido[0]` in the sketch takes one UTF-16 code unit, so a first letter outside the
  Basic Multilingual Plane is a whole character here and half of one there.
- `triggerElite` and `triggerOriginal` are one-line wrappers. They are `ApplyEliteView` and
  `RestoreOriginalLayout` themselves.
- Alphabetical.Diameter: the range [2, 70] is stated only for totals between 0 and a
  positive maximum. Outside that range p5's `map` extrapolates, and the model computes the
  same value without bounding it.
- Scatter.EliteTargetsNear: containment in the elite disk is stated only for circles no
  larger than the disk. A larger circle's reversed range is covered only by `RandomIn`.
