/** The sketch's constants and its circle record. */
module Model {
  import opened Basics
  import opened Geometry

  /** Horizontal gap between neighbouring circles on a shelf. */
  const Spacing: real := 6.2
  /** Left and right margin of the alphabetical view. */
  const Margin: real := 5.0
  /** Diameter of the circle of the most frequent surname. */
  const MaxDiameter: real := 70.0
  /** Height of the first shelf, below the banner. */
  const TopRow: real := Margin + 65.0
  /** Vertical distance between consecutive shelves. */
  const RowStep: real := MaxDiameter * 0.5 + Spacing

  /** A colour in p5's HSB mode with ranges 360, 100, 100. */
  datatype Color = HSB(hue: real, sat: real, bri: real)

  /** What a layout asks a circle to move to. */
  datatype Target = Target(pos: Point, color: Color)

  /** One surname's circle: where it is, what it looks like, where the alphabetical view
      put it, and where the active view wants it (absent until a view sets it). */
  datatype Circle = Circle(
    pos: Point,
    r: real,
    surname: string,
    total: real,
    eliteTotal: real,
    originalPos: Point,
    originalColor: Color,
    color: Color,
    target: Option<Target>)
  {
    function Left(): real { pos.x - r }
    function Right(): real { pos.x + r }
  }

  /** The canvas size. */
  datatype Viewport = Viewport(width: real, height: real)

  /** The sketch's global state: the circle list and the view flag. */
  datatype AppState = AppState(circles: seq<Circle>, isEliteView: bool)
}
