/** Composition of the active planes, a line at a time, against its definition a pixel at a time. */
module Composer {
  import opened Bits
  import opened Blending
  import opened Geometry
  import opened Formats

  /** What is needed of a plane's state: its framebuffer, source and target rectangles, and rotation. */
  datatype Plane = Plane(fb: Framebuffer, src: Rect, dst: Rect, rotation: Rotation)

  /** The source lies in the mapped framebuffer, and the target has the source's size up to a quarter turn. */
  ghost predicate Fits(p: Plane) {
    var s := FpToInt(p.src);
    && Mapped(p.fb)
    && 0 <= s.x1 && s.x2 <= p.fb.width && 0 <= s.y1 && s.y2 <= p.fb.height
    && p.dst.Width() == (if Sideways(p.rotation.turn) then s.Height() else s.Width())
    && p.dst.Height() == (if Sideways(p.rotation.turn) then s.Width() else s.Height())
  }

  /** What the atomic check leaves of a plane: it fits, and its target is clipped not to begin left of the CRTC. */
  ghost predicate Checked(p: Plane) { Fits(p) && 0 <= p.dst.x1 }

  // ---- a pixel at a time ----

  /** The framebuffer point behind CRTC pixel (x, y): undo the target offset, the rotation, the source offset. */
  function SourcePoint(p: Plane, x: int, y: int): Point {
    var s := FpToInt(p.src);
    var q := RotatePixelInv(Point(x - p.dst.x1, y - p.dst.y1), s.Width(), s.Height(), p.rotation);
    Point(q.x + s.x1, q.y + s.y1)
  }

  lemma SourceInside(p: Plane, x: int, y: int)
    requires Fits(p) && p.dst.Contains(x, y)
    ensures Inside(SourcePoint(p, x, y), p.fb.width, p.fb.height)
  {
    hide Mapped, RotatePixelInv, RotatePixel;
    var s := FpToInt(p.src);
    RotationInverse(Point(x - p.dst.x1, y - p.dst.y1), s.Width(), s.Height(), p.rotation);
  }

  ghost function SourcePixel(p: Plane, x: int, y: int): Pixel
    requires Checked(p) && p.dst.Contains(x, y)
  {
    SourceInside(p, x, y);
    PixelAt(p.fb, SourcePoint(p, x, y))
  }

  /** A plane over what lies under it at CRTC pixel (x, y). */
  ghost function BlendAt(p: Plane, x: int, y: int, under: Pixel): Pixel
    requires Checked(p)
  {
    if p.dst.Contains(x, y) then BlendPixel(SourcePixel(p, x, y), under) else under
  }

  ghost predicate AllChecked(planes: seq<Plane>) { forall i :: 0 <= i < |planes| ==> Checked(planes[i]) }

  /** The CRTC pixel (x, y): all planes in z-order over the opaque black background. */
  ghost function Compose(planes: seq<Plane>, x: int, y: int): Pixel
    requires AllChecked(planes)
    decreases |planes|
  {
    if planes == [] then BACKGROUND
    else BlendAt(planes[|planes| - 1], x, y, Compose(planes[..|planes| - 1], x, y))
  }

  // ---- a line at a time ----

  /** Start in the source, first column to write, and number of pixels. */
  datatype Span = Span(srcX: int, srcY: int, dstX: int, count: int)

  function Max(a: int, b: int): int { if a >= b then a else b }

  function Min(a: int, b: int): int { if a <= b then a else b }

  /** The safety net against reading outside the framebuffer. */
  function ClampLine(d: Direction, p: Plane, line: Rect): Span {
    if Horizontal(d) then
      var s0 := Span(line.x1, line.y1, p.dst.x1, line.Width());
      var s1 := if s0.srcX < 0 then Span(0, s0.srcY, s0.dstX - s0.srcX, s0.count + s0.srcX) else s0;
      if s1.srcX + s1.count > p.fb.width then s1.(count := Max(0, p.fb.width - s1.srcX)) else s1
    else
      var s0 := Span(line.x1, line.y1, p.dst.x1, line.Height());
      var s1 := if s0.srcY < 0 then Span(s0.srcX, 0, s0.dstX - s0.srcY, s0.count + s0.srcY) else s0;
      if s1.srcY + s1.count > p.fb.height then s1.(count := Max(0, p.fb.height - s1.srcY)) else s1
  }

  /** The source line behind the columns [x1, x2) of row y. */
  function SourceLine(p: Plane, x1: int, x2: int, y: int): Rect {
    var s := FpToInt(p.src);
    RotateInv(Rect(x1, y, x2, y + 1).Translate(-p.dst.x1, -p.dst.y1), s.Width(), s.Height(), p.rotation)
      .Translate(s.x1, s.y1)
  }

  /** The line read from its starting end visits the source points of the columns, in order, inside the source. */
  lemma LineIsPointwise(p: Plane, x1: int, x2: int, y: int, i: int)
    requires Fits(p) && 0 <= i < x2 - x1 && p.dst.x1 <= x1 && x2 <= p.dst.x2 && p.dst.y1 <= y < p.dst.y2
    ensures var d := DirectionOf(p.rotation);
            Along(LineStart(SourceLine(p, x1, x2, y), d), d, i) == SourcePoint(p, x1 + i, y)
    ensures Inside(SourcePoint(p, x1 + i, y), p.fb.width, p.fb.height)
  {
    hide RotateInv, RotatePixelInv, DirectionOf, Mapped;
    var s := FpToInt(p.src);
    LineVisitsInverses(x1 - p.dst.x1, y - p.dst.y1, x2 - x1, s.Width(), s.Height(), p.rotation, i);
    SourceInside(p, x1 + i, y);
  }

  /** On a plane that fits, the safety net changes nothing. */
  lemma ClampIsDead(p: Plane, x1: int, x2: int, y: int)
    requires Fits(p) && p.dst.x1 <= x1 < x2 <= p.dst.x2 && p.dst.y1 <= y < p.dst.y2
    ensures var line := SourceLine(p, x1, x2, y);
            ClampLine(DirectionOf(p.rotation), p, line) == Span(line.x1, line.y1, p.dst.x1, x2 - x1)
  {
    hide RotateInv, RotatePixelInv, DirectionOf, Mapped;
    var s := FpToInt(p.src);
    LineShape(x1 - p.dst.x1, y - p.dst.y1, x2 - x1, s.Width(), s.Height(), p.rotation);
    LineIsPointwise(p, x1, x2, y, 0);
    LineIsPointwise(p, x1, x2, y, x2 - x1 - 1);
  }

  /** What blend_line asks the reader and the blender for on a line of the given width. */
  function LineSpan(p: Plane, width: nat, y: int): Span {
    ClampLine(DirectionOf(p.rotation), p, SourceLine(p, Max(p.dst.x1, 0), Min(p.dst.x2, width), y))
  }

  /** Some part of the row is on the line. */
  predicate Visible(p: Plane, width: nat, y: int) {
    p.dst.y1 <= y < p.dst.y2 && Max(p.dst.x1, 0) < Min(p.dst.x2, width)
  }

  /**
   * The start column is not clipped to the line although the source is. The writes stay in the line, and
   * each source point reaches its own column, exactly for planes that do not begin left of the CRTC.
   */
  lemma WritesStayInLineExactly(p: Plane, width: nat, y: int)
    requires Fits(p) && Visible(p, width, y)
    ensures var span := LineSpan(p, width, y);
            && span.count > 0
            && (0 <= span.dstX && span.dstX + span.count <= width <==> 0 <= p.dst.x1)
            && (span.dstX == Max(p.dst.x1, 0) <==> 0 <= p.dst.x1)
  {
    hide SourceLine, ClampLine, DirectionOf, Mapped;
    ClampIsDead(p, Max(p.dst.x1, 0), Min(p.dst.x2, width), y);
  }

  /** A row of four pixels whose target begins one pixel left of the line. */
  function LeftPlane(fb: Framebuffer): Plane {
    Plane(fb, Rect(0, 0, 0x4_0000, 0x1_0000), Rect(-1, 0, 3, 1), Rotation(Rotate0, false, false))
  }

  function BlackRow(): Framebuffer { Framebuffer(seq(16, _ => 0), XRGB8888, 0, 16, 4, 1) }

  lemma BlackRowIsMapped()
    ensures Mapped(BlackRow())
  {
    var fb := BlackRow();
    forall x: nat, y: nat | x < fb.width && y < fb.height
      ensures 0 <= Offset(fb, x, y) && Offset(fb, x, y) + Cpp(fb.format) <= |fb.memory|
    {
      OffsetIs(fb, x, y);
    }
  }

  lemma LeftPlaneSource()
    ensures FpToInt(Rect(0, 0, 0x4_0000, 0x1_0000)) == Rect(0, 0, 4, 1)
  {
    assert 0x4_0000 / 0x1_0000 == 4 && 0x1_0000 / 0x1_0000 == 1 && 0 / 0x1_0000 == 0;
  }

  lemma LeftPlaneLine()
    ensures SourceLine(LeftPlane(BlackRow()), 0, 3, 0) == Rect(1, 0, 4, 1)
  {
    hide FpToInt, BlackRow;
    LeftPlaneSource();
  }

  lemma LeftPlaneFits()
    ensures Fits(LeftPlane(BlackRow()))
  {
    hide Mapped, FpToInt;
    BlackRowIsMapped();
    LeftPlaneSource();
  }

  /** It fits, part of it is visible on a line of four pixels, and it is written from column -1 on. */
  lemma PlaneLeftOfLine()
    ensures var p := LeftPlane(BlackRow());
            Fits(p) && Visible(p, 4, 0) && LineSpan(p, 4, 0) == Span(1, 0, -1, 3)
  {
    hide Fits, BlackRow, ClampLine, DirectionOf, SourceLine;
    LeftPlaneFits();
    LeftPlaneLine();
    ClampIsDead(LeftPlane(BlackRow()), 0, 3, 0);
  }

  method PreMulAlphaBlend(stage: array<Pixel>, output: array<Pixel>, xStart: nat, count: nat)
    requires stage != output && xStart + count <= stage.Length && xStart + count <= output.Length
    modifies output
    ensures forall k :: 0 <= k < output.Length ==>
              output[k] == if xStart <= k < xStart + count then BlendPixel(stage[k], old(output[k])) else old(output[k])
  {
    hide BlendChannel;
    for i := 0 to count
      invariant forall k :: 0 <= k < output.Length ==>
        output[k] == if xStart <= k < xStart + i then BlendPixel(stage[k], old(output[k])) else old(output[k])
    {
      var src, dst := stage[xStart + i], output[xStart + i];
      output[xStart + i] := Pixel(MAX16, BlendChannel(src.r, dst.r, src.a), BlendChannel(src.g, dst.g, src.a),
                                  BlendChannel(src.b, dst.b, src.a));
    }
  }

  /** Blends one row of a plane; every pixel of the row comes out as the pixel definition says. */
  method BlendLine(p: Plane, y: int, stage: array<Pixel>, output: array<Pixel>)
    requires Checked(p) && stage != output && stage.Length == output.Length
    modifies stage, output
    ensures forall x :: 0 <= x < output.Length ==> output[x] == BlendAt(p, x, y, old(output[x]))
  {
    hide BlendPixel, RotateInv, RotatePixelInv, DirectionOf, Mapped, PixelAt, ClampLine;
    if y < p.dst.y1 || y >= p.dst.y2 {
      return;
    }
    var x1 := Max(p.dst.x1, 0);
    var x2 := Min(p.dst.x2, output.Length);
    if x2 <= x1 {
      return;
    }
    var line := SourceLine(p, x1, x2, y);
    var direction := DirectionForRotation(p.rotation);
    ClampIsDead(p, x1, x2, y);
    var span := ClampLine(direction, p, line);
    if span.count <= 0 {
      return;
    }
    var start := Point(span.srcX, span.srcY);
    if direction == RightToLeft {
      start := Point(span.srcX + span.count - 1, span.srcY);
    } else if direction == BottomToTop {
      start := Point(span.srcX, span.srcY + span.count - 1);
    }
    assert start == LineStart(line, direction) by { StartOfSpan(p, x2, y); }
    forall i | 0 <= i < span.count
      ensures Along(start, direction, i) == SourcePoint(p, x1 + i, y)
      ensures Inside(Along(start, direction, i), p.fb.width, p.fb.height)
    {
      LineIsPointwise(p, x1, x2, y, i);
    }
    assert Along(start, direction, 0) == start;
    ReadLine(p.fb, start, direction, span.count, stage, span.dstX);
    PreMulAlphaBlend(stage, output, span.dstX, span.count);
    forall x | 0 <= x < output.Length ensures output[x] == BlendAt(p, x, y, old(output[x])) {
      if x1 <= x < x2 {
        assert stage[x1 + (x - x1)] == PixelAt(p.fb, Along(start, direction, x - x1));
      }
    }
  }

  lemma StartOfSpan(p: Plane, x2: int, y: int)
    requires Checked(p) && p.dst.x1 < x2 <= p.dst.x2 && p.dst.y1 <= y < p.dst.y2
    ensures var d := DirectionOf(p.rotation);
            var line := SourceLine(p, p.dst.x1, x2, y);
            var n := x2 - p.dst.x1;
            LineStart(line, d) == match d
              case RightToLeft => Point(line.x1 + n - 1, line.y1)
              case BottomToTop => Point(line.x1, line.y1 + n - 1)
              case _ => Point(line.x1, line.y1)
  {
    hide RotateInv, DirectionOf, Mapped;
    var s := FpToInt(p.src);
    LineShape(0, y - p.dst.y1, x2 - p.dst.x1, s.Width(), s.Height(), p.rotation);
  }

  // ---- whole frames ----

  ghost function Row(planes: seq<Plane>, width: nat, y: int): (row: seq<Pixel>)
    requires AllChecked(planes)
    ensures |row| == width && forall x :: 0 <= x < width ==> row[x] == Compose(planes, x, y)
  {
    seq(width, x requires AllChecked(planes) => Compose(planes, x, y))
  }

  /** Feeding a series of rows to a checksum, first row first. */
  function Fold(crcLe: (int, seq<Pixel>) -> int, crc: int, rows: seq<seq<Pixel>>): int {
    if rows == [] then crc else crcLe(Fold(crcLe, crc, rows[..|rows| - 1]), rows[|rows| - 1])
  }

  /** The composed picture, row by row from the top. */
  ghost function Picture(planes: seq<Plane>, width: nat, height: nat): (rows: seq<seq<Pixel>>)
    requires AllChecked(planes)
    ensures |rows| == height && forall y: nat :: y < height ==> rows[y] == Row(planes, width, y)
  {
    seq(height, y requires AllChecked(planes) => Row(planes, width, y))
  }

  lemma NextRow(planes: seq<Plane>, width: nat, y: nat)
    requires AllChecked(planes)
    ensures Picture(planes, width, y + 1) == Picture(planes, width, y) + [Row(planes, width, y)]
  {
  }

  lemma FoldNext(crcLe: (int, seq<Pixel>) -> int, crc: int, rows: seq<seq<Pixel>>, row: seq<Pixel>)
    ensures Fold(crcLe, crc, rows + [row]) == crcLe(Fold(crcLe, crc, rows), row)
  {
    assert (rows + [row])[..|rows|] == rows;
  }

  lemma NoRows(crcLe: (int, seq<Pixel>) -> int, crc: int, planes: seq<Plane>, width: nat)
    requires AllChecked(planes)
    ensures Fold(crcLe, crc, Picture(planes, width, 0)) == crc
  {
  }

  method FillBackground(output: array<Pixel>)
    modifies output
    ensures forall x :: 0 <= x < output.Length ==> output[x] == BACKGROUND
  {
    for i := 0 to output.Length
      invariant forall x :: 0 <= x < i ==> output[x] == BACKGROUND
    {
      output[i] := BACKGROUND;
    }
  }

  method ComposeRow(planes: seq<Plane>, y: int, stage: array<Pixel>, output: array<Pixel>)
    requires AllChecked(planes) && stage != output && stage.Length == output.Length
    modifies stage, output
    ensures output[..] == Row(planes, output.Length, y)
  {
    hide BlendAt, Checked;
    FillBackground(output);
    for i := 0 to |planes|
      invariant forall x :: 0 <= x < output.Length ==> output[x] == Compose(planes[..i], x, y)
    {
      ghost var under := output[..];
      BlendLine(planes[i], y, stage, output);
      forall x | 0 <= x < output.Length ensures output[x] == Compose(planes[..i + 1], x, y) {
        assert planes[..i + 1][..i] == planes[..i];
        assert output[x] == BlendAt(planes[i], x, y, under[x]);
      }
    }
    assert planes[..|planes|] == planes;
  }

  /** All rows, in order, to the checksum and, if one is wanted, to the writeback buffer. */
  method Blend(planes: seq<Plane>, width: nat, height: nat, crcLe: (int, seq<Pixel>) -> int, crc0: int,
               writeback: bool, wb: Writeback, buffer: array<Byte>) returns (crc: int)
    requires AllChecked(planes)
    requires writeback ==> WbFits(wb, buffer.Length, MinNat(wb.width, width), height)
    requires writeback ==> MinNat(wb.width, width) * Cpp(wb.format) <= wb.pitch
    modifies buffer
    ensures crc == Fold(crcLe, crc0, Picture(planes, width, height))
    ensures writeback ==> forall y: nat :: y < height ==> RowWritten(wb, buffer[..], Row(planes, width, y), y)
    ensures !writeback ==> buffer[..] == old(buffer[..])
  {
    hide Row, WbOffset, RowWritten, Compose, Fold, Picture;
    NoRows(crcLe, crc0, planes, width);
    crc := crc0;
    var stage, output := new Pixel[width](_ => BACKGROUND), new Pixel[width](_ => BACKGROUND);
    for y := 0 to height
      invariant crc == Fold(crcLe, crc0, Picture(planes, width, y))
      invariant writeback ==> forall k: nat :: k < y ==> RowWritten(wb, buffer[..], Row(planes, width, k), k)
      invariant !writeback ==> buffer[..] == old(buffer[..])
    {
      ComposeRow(planes, y, stage, output);
      NextRow(planes, width, y);
      FoldNext(crcLe, crc0, Picture(planes, width, y), output[..]);
      crc := crcLe(crc, output[..]);
      if writeback {
        ghost var before := buffer[..];
        WritebackRow(wb, buffer, output[..], y);
        forall k: nat | k < y ensures RowWritten(wb, buffer[..], Row(planes, width, k), k) {
          RowKept(wb, before, buffer[..], Row(planes, width, k), k, width, y);
        }
      }
    }
  }

  lemma RowKept(wb: Writeback, before: seq<Byte>, after: seq<Byte>, row: seq<Pixel>, k: nat, width: nat, y: nat)
    requires k < y && |row| == width && MinNat(wb.width, width) * Cpp(wb.format) <= wb.pitch
    requires RowWritten(wb, before, row, k) && |before| == |after|
    requires WbOffset(wb, 0, y) <= |before| || MinNat(wb.width, width) == 0
    requires forall i :: 0 <= i < |before| && !InRow(wb, width, y, i) ==> after[i] == before[i]
    ensures RowWritten(wb, after, row, k)
  {
    hide PixelWritten, WbOffset;
    var limit := MinNat(wb.width, width);
    forall x: nat | x < limit ensures PixelWritten(wb, after, row[x], x, k) {
      RowsDoNotOverlap(wb, limit, x, k, 0, y);
      PixelKept(wb, before, after, row[x], x, k, WbOffset(wb, 0, y));
    }
  }

  // ---- what the composed pixels are ----

  /** The source pixels of the planes that cover CRTC pixel (x, y), lowest first. */
  ghost function Layers(planes: seq<Plane>, x: int, y: int): seq<Pixel>
    requires AllChecked(planes)
    decreases |planes|
  {
    if planes == [] then []
    else
      var top := planes[|planes| - 1];
      Layers(planes[..|planes| - 1], x, y) + if top.dst.Contains(x, y) then [SourcePixel(top, x, y)] else []
  }

  lemma {:induction false} ComposeIsBlendAll(planes: seq<Plane>, x: int, y: int)
    requires AllChecked(planes)
    ensures Compose(planes, x, y) == BlendAll(Layers(planes, x, y))
    decreases |planes|
  {
    hide Checked, SourcePixel, BlendPixel;
    if planes == [] {
    } else {
      var below := planes[..|planes| - 1];
      ComposeIsBlendAll(below, x, y);
      var ls := Layers(planes, x, y);
      if planes[|planes| - 1].dst.Contains(x, y) {
        assert ls[..|ls| - 1] == Layers(below, x, y);
      } else {
        assert ls == Layers(below, x, y);
      }
    }
  }

  /**
   * Over pre-multiplied planes every composed pixel is opaque and each channel is within one half step,
   * per covering plane, of the exact rational composition.
   */
  lemma ComposeError(planes: seq<Plane>, x: int, y: int, c: Channel)
    requires AllChecked(planes)
    requires forall i :: 0 <= i < |Layers(planes, x, y)| ==> Premultiplied(Layers(planes, x, y)[i])
    ensures var ls := Layers(planes, x, y);
            && Compose(planes, x, y).a == MAX16
            && Distance(Get(c, Compose(planes, x, y)) as real, ExactAll(c, ls)) <= |ls| as real * (32767.0 / 65535.0)
            && |ls| <= |planes|
  {
    ComposeIsBlendAll(planes, x, y);
    CompositionError(c, Layers(planes, x, y));
    LayerCount(planes, x, y);
  }

  lemma {:induction false} LayerCount(planes: seq<Plane>, x: int, y: int)
    requires AllChecked(planes)
    ensures |Layers(planes, x, y)| <= |planes|
    decreases |planes|
  {
    if planes == [] {
    } else {
      LayerCount(planes[..|planes| - 1], x, y);
    }
  }

  /** The source rectangle of p has the given integer corners. */
  predicate SourceIs(p: Plane, a: int, b: int, c: int, d: int) {
    p.src == Rect(0x1_0000 * a, 0x1_0000 * b, 0x1_0000 * c, 0x1_0000 * d)
  }

  /** Where the pixel at column x, row y of a framebuffer begins, and whether it lies in the mapping. */
  function Address(fb: Framebuffer, x: int, y: int): int { fb.offset + y * fb.pitch + x * Cpp(fb.format) }

  predicate InMemory(fb: Framebuffer, x: int, y: int) {
    0 <= Address(fb, x, y) && Address(fb, x, y) + Cpp(fb.format) <= |fb.memory|
  }

  function Fetch(fb: Framebuffer, x: int, y: int): Pixel
    requires InMemory(fb, x, y)
  {
    Decode(fb.format, fb.memory, Address(fb, x, y))
  }

  lemma PixelAtIs(fb: Framebuffer, p: Point)
    requires Mapped(fb) && Inside(p, fb.width, fb.height)
    ensures InMemory(fb, p.x, p.y) && PixelAt(fb, p) == Fetch(fb, p.x, p.y)
  {
    hide Decode;
    OffsetIs(fb, p.x, p.y);
  }

  /**
   * Column u, row v of the source rectangle lands where the rotation takes it, counted from the corner of
   * the target, and is blended over what the planes below show there.
   */
  lemma SourcePixelLands(planes: seq<Plane>, p: Plane, a: int, b: int, c: int, d: int, u: int, v: int)
    requires AllChecked(planes) && Checked(p) && SourceIs(p, a, b, c, d) && 0 <= u < c - a && 0 <= v < d - b
    ensures var q := RotatePixel(Point(u, v), c - a, d - b, p.rotation);
            var x, y := p.dst.x1 + q.x, p.dst.y1 + q.y;
            && p.dst.Contains(x, y) && AllChecked(planes + [p]) && InMemory(p.fb, a + u, b + v)
            && Compose(planes + [p], x, y) == BlendPixel(Fetch(p.fb, a + u, b + v), Compose(planes, x, y))
  {
    hide RotatePixel, RotatePixelInv, FpToInt, Mapped, BlendPixel, InMemory, Fetch, PixelAt;
    var q := RotatePixel(Point(u, v), c - a, d - b, p.rotation);
    var x, y := p.dst.x1 + q.x, p.dst.y1 + q.y;
    IntegerPart(a, b, c, d);
    RotationInverse(Point(u, v), c - a, d - b, p.rotation);
    RotationInverse(q, c - a, d - b, p.rotation);
    assert SourcePoint(p, x, y) == Point(a + u, b + v);
    SourceInside(p, x, y);
    PixelAtIs(p.fb, Point(a + u, b + v));
    assert (planes + [p])[..|planes|] == planes;
  }

  /** Without a rotation: each pixel of the target is the source pixel at the same distance from the corner. */
  lemma UnrotatedPlane(planes: seq<Plane>, p: Plane, a: int, b: int, c: int, d: int, x: int, y: int)
    requires AllChecked(planes) && Checked(p) && SourceIs(p, a, b, c, d)
    requires p.rotation == Rotation(Rotate0, false, false)
    ensures AllChecked(planes + [p])
    ensures if p.dst.Contains(x, y) then
              && InMemory(p.fb, x - p.dst.x1 + a, y - p.dst.y1 + b)
              && Compose(planes + [p], x, y) ==
                 BlendPixel(Fetch(p.fb, x - p.dst.x1 + a, y - p.dst.y1 + b), Compose(planes, x, y))
            else Compose(planes + [p], x, y) == Compose(planes, x, y)
  {
    hide FpToInt, Mapped, BlendPixel, InMemory, Fetch, PixelAt;
    assert (planes + [p])[..|planes|] == planes;
    if p.dst.Contains(x, y) {
      IntegerPart(a, b, c, d);
      var u, v := x - p.dst.x1, y - p.dst.y1;
      assert RotatePixel(Point(u, v), c - a, d - b, p.rotation) == Point(u, v);
      SourcePixelLands(planes, p, a, b, c, d, u, v);
    }
  }

  /** The last plane is on top: where it is opaque, nothing below shows. Where no plane is, the line is black. */
  lemma OpaqueTopHides(planes: seq<Plane>, p: Plane, x: int, y: int)
    requires AllChecked(planes) && Checked(p) && p.dst.Contains(x, y) && SourcePixel(p, x, y).a == MAX16
    ensures AllChecked(planes + [p]) && Compose(planes + [p], x, y) == SourcePixel(p, x, y)
    ensures Compose([], x, y) == Pixel(0xffff, 0, 0, 0)
  {
    hide BlendPixel, SourcePixel;
    assert (planes + [p])[..|planes|] == planes;
    BlendOpaque(SourcePixel(p, x, y), Compose(planes, x, y));
  }

  /** One unrotated, unshifted plane as large as the CRTC. */
  ghost predicate FullScreen(p: Plane, width: nat, height: nat) {
    && Checked(p) && p.rotation == Rotation(Rotate0, false, false)
    && p.dst == Rect(0, 0, width, height) && FpToInt(p.src) == Rect(0, 0, width, height)
  }

  /** Composing such a plane and writing it back in its own format reproduces the colour bytes of opaque pixels. */
  lemma FullScreenReproduces(p: Plane, width: nat, height: nat, wb: Writeback, buffer: seq<Byte>, x: nat, y: nat)
    requires FullScreen(p, width, height) && x < width && y < height
    requires wb.format == p.fb.format && wb.width >= width
    requires RowWritten(wb, buffer, Row([p], width, y), y)
    requires PixelAt(p.fb, SourcePoint(p, x, y)).a == MAX16
    ensures SourcePoint(p, x, y) == Point(x, y)
    ensures var c := Cpp(p.fb.format);
            var o, i := wb.offset + y * wb.pitch + (wb.left + x) * c, p.fb.offset + y * p.fb.pitch + x * c;
            && 0 <= o && o + c <= |buffer| && 0 <= i && i + c <= |p.fb.memory|
            && buffer[o..o + c] == Solid(p.fb.format, p.fb.memory[i..i + c])
  {
    hide Encode, Decode, BlendPixel, WbOffset, Offset, Solid, Cpp;
    var i := Offset(p.fb, x, y);
    OffsetIs(p.fb, x, y);
    WbOffsetIs(wb, x, y);
    assert SourcePoint(p, x, y) == Point(x, y);
    assert PixelWritten(wb, buffer, Row([p], width, y)[x], x, y);
    assert [p][..0] == [];
    assert Compose([p], x, y) == BlendPixel(Decode(p.fb.format, p.fb.memory, i), BACKGROUND);
    OpaqueRoundTrip(p.fb.format, p.fb.memory, i, BACKGROUND);
  }
}
