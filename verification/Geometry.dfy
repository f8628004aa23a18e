/** Rectangles and the rotation/reflection that maps a plane's source onto the CRTC. */
module Geometry {
  datatype Rect = Rect(x1: int, y1: int, x2: int, y2: int) {
    function Width(): int { x2 - x1 }

    function Height(): int { y2 - y1 }

    function Translate(dx: int, dy: int): Rect { Rect(x1 + dx, y1 + dy, x2 + dx, y2 + dy) }

    predicate Contains(x: int, y: int) { x1 <= x < x2 && y1 <= y < y2 }
  }

  /** DRM_RECT_INIT. */
  function RectInit(x: int, y: int, width: int, height: int): Rect { Rect(x, y, x + width, y + height) }

  /** Drops the fractional part of a 16.16 fixed-point rectangle. */
  function FpToInt(r: Rect): Rect {
    RectInit(r.x1 / 0x1_0000, r.y1 / 0x1_0000, r.Width() / 0x1_0000, r.Height() / 0x1_0000)
  }

  /** Integer corners come out as they are. */
  lemma IntegerPart(a: int, b: int, c: int, d: int)
    ensures FpToInt(Rect(0x1_0000 * a, 0x1_0000 * b, 0x1_0000 * c, 0x1_0000 * d)) == Rect(a, b, c, d)
  {
    assert 0x1_0000 * c - 0x1_0000 * a == 0x1_0000 * (c - a);
    assert 0x1_0000 * d - 0x1_0000 * b == 0x1_0000 * (d - b);
  }

  predicate Floor(whole: int, fixed: int) { 0x1_0000 * whole <= fixed < 0x1_0000 * (whole + 1) }

  /** A fractional rectangle loses the fraction of its upper left corner and of its size. */
  lemma FractionDropped(r: Rect)
    ensures var s := FpToInt(r);
            Floor(s.x1, r.x1) && Floor(s.y1, r.y1) && Floor(s.Width(), r.Width()) && Floor(s.Height(), r.Height())
  {
  }

  datatype Turn = Rotate0 | Rotate90 | Rotate180 | Rotate270

  /** The source is reflected first and then turned counter-clockwise. */
  datatype Rotation = Rotation(turn: Turn, reflectX: bool, reflectY: bool)

  datatype Direction = BottomToTop | TopToBottom | RightToLeft | LeftToRight

  /** The inverse of a rotation on rectangles; width and height are those of the source. */
  function RotateInv(r: Rect, width: int, height: int, rotation: Rotation): Rect {
    var t := match rotation.turn
      case Rotate0 => r
      case Rotate90 => Rect(width - r.y2, r.x1, width - r.y1, r.x2)
      case Rotate180 => Rect(width - r.x2, height - r.y2, width - r.x1, height - r.y1)
      case Rotate270 => Rect(r.y1, height - r.x2, r.y2, height - r.x1);
    var u := if rotation.reflectX then Rect(width - t.x2, t.y1, width - t.x1, t.y2) else t;
    if rotation.reflectY then Rect(u.x1, height - u.y2, u.x2, height - u.y1) else u
  }

  // ---- the same on pixels ----

  datatype Point = Point(x: int, y: int)

  predicate Inside(p: Point, width: int, height: int) { 0 <= p.x < width && 0 <= p.y < height }

  predicate Sideways(turn: Turn) { turn.Rotate90? || turn.Rotate270? }

  /** Where a source pixel lands. */
  function RotatePixel(p: Point, width: int, height: int, rotation: Rotation): Point {
    var x := if rotation.reflectX then width - 1 - p.x else p.x;
    var y := if rotation.reflectY then height - 1 - p.y else p.y;
    match rotation.turn
    case Rotate0 => Point(x, y)
    case Rotate90 => Point(y, width - 1 - x)
    case Rotate180 => Point(width - 1 - x, height - 1 - y)
    case Rotate270 => Point(height - 1 - y, x)
  }

  /** Which source pixel lands at p. */
  function RotatePixelInv(p: Point, width: int, height: int, rotation: Rotation): Point {
    var q := match rotation.turn
      case Rotate0 => p
      case Rotate90 => Point(width - 1 - p.y, p.x)
      case Rotate180 => Point(width - 1 - p.x, height - 1 - p.y)
      case Rotate270 => Point(p.y, height - 1 - p.x);
    Point(if rotation.reflectX then width - 1 - q.x else q.x, if rotation.reflectY then height - 1 - q.y else q.y)
  }

  /** The inverse undoes the rotation, both ways, and maps the turned area onto the source area. */
  lemma RotationInverse(p: Point, width: int, height: int, rotation: Rotation)
    ensures RotatePixelInv(RotatePixel(p, width, height, rotation), width, height, rotation) == p
    ensures RotatePixel(RotatePixelInv(p, width, height, rotation), width, height, rotation) == p
    ensures Inside(RotatePixelInv(p, width, height, rotation), width, height) <==>
            if Sideways(rotation.turn) then Inside(p, height, width) else Inside(p, width, height)
  {
  }

  /** Turns compose, and a quarter turn is counter-clockwise: the top right corner becomes the top left one. */
  lemma TurnsCompose(p: Point, width: int, height: int)
    ensures var once := RotatePixel(p, width, height, Rotation(Rotate90, false, false));
            var twice := RotatePixel(once, height, width, Rotation(Rotate90, false, false));
            && twice == RotatePixel(p, width, height, Rotation(Rotate180, false, false))
            && RotatePixel(twice, width, height, Rotation(Rotate90, false, false)) ==
               RotatePixel(p, width, height, Rotation(Rotate270, false, false))
    ensures RotatePixel(Point(width - 1, 0), width, height, Rotation(Rotate90, false, false)) == Point(0, 0)
  {
  }

  /** Reflections come before the turn, each along its own axis. */
  lemma ReflectionsComeFirst(p: Point, width: int, height: int, rotation: Rotation)
    ensures var q := Point(if rotation.reflectX then width - 1 - p.x else p.x,
                           if rotation.reflectY then height - 1 - p.y else p.y);
            RotatePixel(p, width, height, rotation) == RotatePixel(q, width, height, Rotation(rotation.turn, false, false))
  {
  }

  /** The rectangle form agrees with the pixel form on one-pixel rectangles. */
  lemma RectOfPixel(p: Point, width: int, height: int, rotation: Rotation)
    ensures var q := RotatePixelInv(p, width, height, rotation);
            RotateInv(RectInit(p.x, p.y, 1, 1), width, height, rotation) == RectInit(q.x, q.y, 1, 1)
  {
  }

  /** The reading direction, from the images of two neighbouring points of a 1x1 square. */
  method DirectionForRotation(rotation: Rotation) returns (direction: Direction)
    ensures direction == DirectionOf(rotation)
  {
    var a := RotateInv(RectInit(0, 0, 0, 0), 1, 1, rotation);
    var b := RotateInv(RectInit(1, 0, 0, 0), 1, 1, rotation);
    var x := b.x1 - a.x1;
    var y := b.y1 - a.y1;
    if x == 1 && y == 0 {
      return LeftToRight;
    } else if x == -1 && y == 0 {
      return RightToLeft;
    } else if y == 1 && x == 0 {
      return TopToBottom;
    } else if y == -1 && x == 0 {
      return BottomToTop;
    }
    return LeftToRight;
  }

  function DirectionOf(rotation: Rotation): Direction {
    match rotation.turn
    case Rotate0 => if rotation.reflectX then RightToLeft else LeftToRight
    case Rotate90 => if rotation.reflectY then BottomToTop else TopToBottom
    case Rotate180 => if rotation.reflectX then LeftToRight else RightToLeft
    case Rotate270 => if rotation.reflectY then TopToBottom else BottomToTop
  }

  predicate Horizontal(d: Direction) { d.LeftToRight? || d.RightToLeft? }

  /** The point i steps from the start of a line. */
  function Along(start: Point, d: Direction, i: int): Point {
    match d
    case LeftToRight => Point(start.x + i, start.y)
    case RightToLeft => Point(start.x - i, start.y)
    case TopToBottom => Point(start.x, start.y + i)
    case BottomToTop => Point(start.x, start.y - i)
  }

  /** The end of a one-pixel-thick rectangle at which a line read in the given direction starts. */
  function LineStart(line: Rect, d: Direction): Point {
    match d
    case RightToLeft => Point(line.x2 - 1, line.y1)
    case BottomToTop => Point(line.x1, line.y2 - 1)
    case _ => Point(line.x1, line.y1)
  }

  /** A horizontal run of CRTC pixels stays a one-pixel-thick line, lying in the reading direction. */
  lemma LineShape(x: int, y: int, length: int, width: int, height: int, rotation: Rotation)
    ensures var line := RotateInv(RectInit(x, y, length, 1), width, height, rotation);
            if Horizontal(DirectionOf(rotation)) then line.Width() == length && line.Height() == 1
            else line.Height() == length && line.Width() == 1
  {
  }

  lemma LineStartsAtInverse(x: int, y: int, length: int, width: int, height: int, rotation: Rotation)
    ensures LineStart(RotateInv(RectInit(x, y, length, 1), width, height, rotation), DirectionOf(rotation)) ==
            RotatePixelInv(Point(x, y), width, height, rotation)
  {
  }

  /** DirectionOf is the image of one step to the right on the CRTC. */
  lemma InverseAlong(x: int, y: int, i: int, width: int, height: int, rotation: Rotation)
    ensures RotatePixelInv(Point(x + i, y), width, height, rotation) ==
            Along(RotatePixelInv(Point(x, y), width, height, rotation), DirectionOf(rotation), i)
  {
  }

  /**
   * A horizontal run of CRTC pixels, inverted as one rectangle and read from the right end in the right
   * direction, visits exactly the pixels that inverting each point gives, in the same order.
   */
  lemma LineVisitsInverses(x: int, y: int, length: int, width: int, height: int, rotation: Rotation, i: int)
    ensures var line := RotateInv(RectInit(x, y, length, 1), width, height, rotation);
            var d := DirectionOf(rotation);
            Along(LineStart(line, d), d, i) == RotatePixelInv(Point(x + i, y), width, height, rotation)
  {
    hide *;
    LineStartsAtInverse(x, y, length, width, height, rotation);
    InverseAlong(x, y, i, width, height, rotation);
  }
}
