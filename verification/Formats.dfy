/** Pixel formats in memory: addressing, reading a line in any direction, writing a row back. */
module Formats {
  import opened Bits
  import opened Blending
  import opened Geometry

  datatype Format = ARGB8888 | XRGB8888 | ABGR8888 | ARGB16161616 | XRGB16161616

  /** Bytes per pixel; every block is one pixel. */
  function Cpp(f: Format): nat {
    match f
    case ARGB16161616 => 8
    case XRGB16161616 => 8
    case _ => 4
  }

  // ---- one pixel ----

  /** The 8-bit channels scaled by (2^16 - 1) / (2^8 - 1). */
  function From8888(a: Byte, r: Byte, g: Byte, b: Byte): Pixel {
    Pixel(a as int * 257, r as int * 257, g as int * 257, b as int * 257)
  }

  function Le16(m: seq<Byte>, o: int): U16
    requires 0 <= o && o + 1 < |m|
  {
    m[o] as int + 256 * m[o + 1] as int
  }

  function Decode(f: Format, m: seq<Byte>, o: int): Pixel
    requires 0 <= o && o + Cpp(f) <= |m|
  {
    match f
    case ARGB8888 => From8888(m[o + 3], m[o + 2], m[o + 1], m[o])
    case XRGB8888 => From8888(255, m[o + 2], m[o + 1], m[o])
    case ABGR8888 => From8888(m[o + 3], m[o], m[o + 1], m[o + 2])
    case ARGB16161616 => Pixel(Le16(m, o + 6), Le16(m, o + 4), Le16(m, o + 2), Le16(m, o))
    case XRGB16161616 => Pixel(MAX16, Le16(m, o + 4), Le16(m, o + 2), Le16(m, o))
  }

  /** DIV_ROUND_CLOSEST(v, 257). */
  function To8(v: U16): Byte { (v + 128) / 257 }

  function ToLe16(v: U16): seq<Byte> { [v % 256, v / 256] }

  function Encode(f: Format, p: Pixel): (b: seq<Byte>)
    ensures |b| == Cpp(f)
  {
    match f
    case ARGB8888 => [To8(p.b), To8(p.g), To8(p.r), To8(p.a)]
    case XRGB8888 => [To8(p.b), To8(p.g), To8(p.r), 255]
    case ABGR8888 => [To8(p.r), To8(p.g), To8(p.b), To8(p.a)]
    case ARGB16161616 => ToLe16(p.b) + ToLe16(p.g) + ToLe16(p.r) + ToLe16(p.a)
    case XRGB16161616 => ToLe16(p.b) + ToLe16(p.g) + ToLe16(p.r) + ToLe16(MAX16)
  }

  /** An eight-bit channel is the nearest one: no other multiple of 257 is closer. */
  lemma To8IsNearest(v: U16)
    ensures -128 <= 257 * To8(v) - v <= 128
  {
  }

  /** v as an eight-bit channel shows it. */
  function Nearest(v: U16): U16 { 257 * To8(v) }

  predicate HasAlpha(f: Format) { f.ARGB8888? || f.ABGR8888? || f.ARGB16161616? }

  /** Writing a pixel and reading it again rounds its channels to the format's depth, alpha included. */
  lemma DecodeEncode(f: Format, p: Pixel)
    ensures var q := if Cpp(f) == 4 then Pixel(Nearest(p.a), Nearest(p.r), Nearest(p.g), Nearest(p.b)) else p;
            Decode(f, Encode(f, p), 0) == if HasAlpha(f) then q else q.(a := MAX16)
  {
    hide To8;
    Le16Of(p.a);
    Le16Of(p.r);
    Le16Of(p.g);
    Le16Of(p.b);
  }

  lemma Le16Of(v: U16)
    ensures v % 256 + 256 * (v / 256) == v
  {
  }

  /** The little-endian word of the pixel's bytes. */
  function Word(b: seq<Byte>): nat {
    if b == [] then 0 else b[0] as int + 256 * Word(b[1..])
  }

  /** The formats by their definition, from the top of a little-endian word down: eight bits of A, R, G, B each. */
  lemma WordLayout8(f: Format, m: seq<Byte>, o: int)
    requires 0 <= o && o + 4 <= |m| && Cpp(f) == 4
    ensures var w, p := Word(m[o..o + 4]), Decode(f, m, o);
            match f
            case ARGB8888 => 257 * w == p.a * 0x100_0000 + p.r * 0x1_0000 + p.g * 0x100 + p.b
            case XRGB8888 => p.a == MAX16 && 257 * (w % 0x100_0000) == p.r * 0x1_0000 + p.g * 0x100 + p.b
            case ABGR8888 => 257 * w == p.a * 0x100_0000 + p.b * 0x1_0000 + p.g * 0x100 + p.r
            case _ => true
  {
    hide Word;
    WordOf4(m[o..o + 4]);
    EmptyWord(m[o..o + 4][4..]);
    LowBytes(Word(m[o..o + 4]), m[o + 3], m[o + 2], m[o + 1], m[o]);
  }

  lemma LowBytes(w: nat, b3: Byte, b2: Byte, b1: Byte, b0: Byte)
    requires w == b0 as int + 0x100 * b1 as int + 0x1_0000 * b2 as int + 0x100_0000 * b3 as int
    ensures w % 0x100_0000 == b0 as int + 0x100 * b1 as int + 0x1_0000 * b2 as int
  {
    DivModUnique(w, 0x100_0000, b3, b0 as int + 0x100 * b1 as int + 0x1_0000 * b2 as int);
  }

  /** Sixteen bits each; the topmost are unused where there is no alpha. */
  lemma WordLayout16(f: Format, m: seq<Byte>, o: int)
    requires 0 <= o && o + 8 <= |m| && Cpp(f) == 8
    ensures var w, p := Word(m[o..o + 8]), Decode(f, m, o);
            var top := if HasAlpha(f) then p.a else Le16(m, o + 6);
            && w == top * 0x1_0000_0000_0000 + p.r * 0x1_0000_0000 + p.g * 0x1_0000 + p.b
            && (!HasAlpha(f) ==> p.a == MAX16)
  {
    hide Word;
    WordOf4(m[o..o + 8]);
    assert m[o..o + 8][4..] == m[o + 4..o + 8];
    WordOf4(m[o + 4..o + 8]);
    EmptyWord(m[o + 4..o + 8][4..]);
  }

  lemma EmptyWord(b: seq<Byte>)
    requires b == []
    ensures Word(b) == 0
  {
  }

  lemma WordOf4(b: seq<Byte>)
    requires |b| >= 4
    ensures Word(b) == b[0] as int + 0x100 * b[1] as int + 0x1_0000 * b[2] as int + 0x100_0000 * b[3] as int
                       + 0x1_0000_0000 * Word(b[4..])
  {
    var b1, b2, b3 := b[1..], b[2..], b[3..];
    assert b1[1..] == b2 && b2[1..] == b3 && b3[1..] == b[4..];
    assert Word(b1) == b[1] as int + 256 * Word(b2);
    assert Word(b2) == b[2] as int + 256 * Word(b3);
  }

  /** The pixel's bytes with the alpha or unused channel all ones. */
  function Solid(f: Format, b: seq<Byte>): seq<Byte>
    requires |b| == Cpp(f)
  {
    if Cpp(f) == 4 then b[3 := 255] else b[6 := 255][7 := 255]
  }

  /** Reading an opaque pixel, blending it over anything and writing it back keeps every colour byte. */
  lemma OpaqueRoundTrip(f: Format, m: seq<Byte>, o: int, under: Pixel)
    requires 0 <= o && o + Cpp(f) <= |m| && Decode(f, m, o).a == MAX16
    ensures Encode(f, BlendPixel(Decode(f, m, o), under)) == Solid(f, m[o..o + Cpp(f)])
  {
    hide Encode, Decode, BlendPixel, Solid;
    BlendOpaque(Decode(f, m, o), under);
    EncodeDecode(f, m, o);
  }

  lemma BlendOpaque(p: Pixel, under: Pixel)
    requires p.a == MAX16
    ensures BlendPixel(p, under) == p
  {
    hide BlendChannel;
    OpaqueChannel(p.r, under.r);
    OpaqueChannel(p.g, under.g);
    OpaqueChannel(p.b, under.b);
  }

  lemma EncodeDecode(f: Format, m: seq<Byte>, o: int)
    requires 0 <= o && o + Cpp(f) <= |m| && Decode(f, m, o).a == MAX16
    ensures Encode(f, Decode(f, m, o)) == Solid(f, m[o..o + Cpp(f)])
  {
    hide To8, Le16, ToLe16;
    if Cpp(f) == 4 {
      To8Of(m[o]);
      To8Of(m[o + 1]);
      To8Of(m[o + 2]);
      To8Of(255);
    } else {
      ToLe16Of(m, o);
      ToLe16Of(m, o + 2);
      ToLe16Of(m, o + 4);
      AllOnes();
    }
  }

  lemma To8Of(b: Byte)
    ensures To8(b as int * 257) == b
  {
  }

  lemma ToLe16Of(m: seq<Byte>, o: int)
    requires 0 <= o && o + 1 < |m|
    ensures ToLe16(Le16(m, o)) == [m[o], m[o + 1]]
  {
    DivModUnique(Le16(m, o), 256, m[o + 1], m[o]);
  }

  lemma AllOnes()
    ensures ToLe16(MAX16) == [255, 255]
  {
  }

  lemma OpaqueChannel(src: U16, dst: U16)
    ensures BlendChannel(src, dst, MAX16) == src
  {
  }

  // ---- addressing ----

  /** Byte offset of the block that holds pixel (x, y), and the pixel's place in that block. */
  function PackedOffset(offset: nat, pitch: nat, charPerBlock: nat, blockW: nat, blockH: nat,
                        x: nat, y: nat): (int, int, int)
    requires blockW >= 1 && blockH >= 1
  {
    (offset + y / blockH * (pitch * blockH) + x / blockW * charPerBlock, x % blockW, y % blockH)
  }

  /** Row by row of blocks, and block by block in a row. */
  lemma BlockAddress(offset: nat, pitch: nat, cpb: nat, w: nat, h: nat, column: nat, row: nat, rx: nat, ry: nat)
    requires rx < w && ry < h
    ensures PackedOffset(offset, pitch, cpb, w, h, column * w + rx, row * h + ry) ==
            (offset + row * (pitch * h) + column * cpb, rx, ry)
  {
    DivModUnique(column * w + rx, w, column, rx);
    DivModUnique(row * h + ry, h, row, ry);
  }

  /** Bytes from one block to the next in a reading direction, as the driver computes it. */
  function StepBytes(d: Direction, pitch: nat, charPerBlock: nat, blockW: nat): int {
    match d
    case LeftToRight => charPerBlock as int
    case RightToLeft => -(charPerBlock as int)
    case TopToBottom => pitch * blockW
    case BottomToTop => -(pitch * blockW)
  }

  /** The vertical step leads to the next block below exactly for square blocks: it uses the wrong dimension. */
  lemma VerticalStepExactly(offset: nat, pitch: nat, cpb: nat, blockW: nat, blockH: nat, x: nat, y: nat)
    requires blockW >= 1 && blockH >= 1 && pitch >= 1
    ensures PackedOffset(offset, pitch, cpb, blockW, blockH, x, y + blockH).0
            == PackedOffset(offset, pitch, cpb, blockW, blockH, x, y).0 + StepBytes(TopToBottom, pitch, cpb, blockW)
            <==> blockW == blockH
  {
    var q, p := y / blockH, pitch * blockH;
    assert (y + blockH) / blockH == q + 1 by {
      assert blockH * (q + 1) == blockH * q + blockH;
      DivModUnique(y + blockH, blockH, q + 1, y % blockH);
    }
    assert (q + 1) * p == q * p + p;
    if pitch * blockW == pitch * blockH { MulCancel(pitch, blockW, blockH); }
  }

  lemma MulCancel(m: nat, a: int, b: int)
    requires m >= 1 && m * a == m * b
    ensures a == b
  {
    assert m * (a - b) == 0;
  }

  /** A framebuffer whose blocks are single pixels. */
  datatype Framebuffer = Framebuffer(memory: seq<Byte>, format: Format, offset: nat, pitch: nat, width: nat,
      height: nat)

  function Offset(fb: Framebuffer, x: nat, y: nat): int {
    PackedOffset(fb.offset, fb.pitch, Cpp(fb.format), 1, 1, x, y).0
  }

  lemma OffsetIs(fb: Framebuffer, x: nat, y: nat)
    ensures Offset(fb, x, y) == fb.offset + y * fb.pitch + x * Cpp(fb.format)
  {
    assert x / 1 == x && y / 1 == y && fb.pitch * 1 == fb.pitch;
  }

  /** Every pixel's bytes lie in the mapped memory. */
  ghost predicate Mapped(fb: Framebuffer) {
    forall x: nat, y: nat :: x < fb.width && y < fb.height ==>
      0 <= Offset(fb, x, y) && Offset(fb, x, y) + Cpp(fb.format) <= |fb.memory|
  }

  ghost function PixelAt(fb: Framebuffer, p: Point): Pixel
    requires Mapped(fb) && Inside(p, fb.width, fb.height)
  {
    Decode(fb.format, fb.memory, Offset(fb, p.x, p.y))
  }

  /** One pointer step moves by one pixel in the reading direction. */
  lemma StepMoves(fb: Framebuffer, p: Point, d: Direction)
    requires p.x >= 0 && p.y >= 0
    ensures var q := Along(p, d, 1);
            q.x >= 0 && q.y >= 0 ==>
              Offset(fb, q.x, q.y) == Offset(fb, p.x, p.y) + StepBytes(d, fb.pitch, Cpp(fb.format), 1)
  {
    var q := Along(p, d, 1);
    OffsetIs(fb, p.x, p.y);
    if q.x >= 0 && q.y >= 0 { OffsetIs(fb, q.x, q.y); }
    assert (p.y + 1) * fb.pitch == p.y * fb.pitch + fb.pitch;
    assert (p.y - 1) * fb.pitch == p.y * fb.pitch - fb.pitch;
    assert fb.pitch * 1 == fb.pitch;
  }

  /** The line readers: one pointer, one constant step, one decoded pixel each time. */
  method ReadLine(fb: Framebuffer, start: Point, d: Direction, count: nat, out: array<Pixel>, at: nat)
    requires Mapped(fb) && at + count <= out.Length
    requires forall i :: 0 <= i < count ==> Inside(Along(start, d, i), fb.width, fb.height)
    requires start.x >= 0 && start.y >= 0
    modifies out
    ensures forall i :: 0 <= i < count ==> out[at + i] == PixelAt(fb, Along(start, d, i))
    ensures forall k :: 0 <= k < out.Length && !(at <= k < at + count) ==> out[k] == old(out[k])
  {
    hide Decode, Offset, StepBytes;
    assert Along(start, d, 0) == start;
    var src := Offset(fb, start.x, start.y);
    var step := StepBytes(d, fb.pitch, Cpp(fb.format), 1);
    var i := 0;
    while i < count
      invariant 0 <= i <= count
      invariant i < count ==> src == Offset(fb, Along(start, d, i).x, Along(start, d, i).y)
      invariant forall k :: 0 <= k < i ==> out[at + k] == PixelAt(fb, Along(start, d, k))
      invariant forall k :: 0 <= k < out.Length && !(at <= k < at + i) ==> out[k] == old(out[k])
    {
      assert Inside(Along(start, d, i), fb.width, fb.height);
      out[at + i] := Decode(fb.format, fb.memory, src);
      if i + 1 < count {
        assert Inside(Along(start, d, i + 1), fb.width, fb.height);
        StepMoves(fb, Along(start, d, i), d);
      }
      src := src + step;
      i := i + 1;
    }
  }

  // ---- writeback ----

  /** Where a row goes: the layout of the writeback buffer and the left edge and width of its target. */
  datatype Writeback = Writeback(format: Format, offset: nat, pitch: nat, left: nat, width: nat)

  function WbOffset(wb: Writeback, x: nat, y: nat): int {
    PackedOffset(wb.offset, wb.pitch, Cpp(wb.format), 1, 1, wb.left, y).0 + x * Cpp(wb.format)
  }

  /** The pixels of the first width columns and height rows fit in a buffer of the given size. */
  ghost predicate WbFits(wb: Writeback, size: nat, width: nat, height: nat) {
    forall x: nat, y: nat :: x < width && y < height ==> 0 <= WbOffset(wb, x, y) <= size - Cpp(wb.format)
  }

  /** A row no longer than the pitch ends before the next row begins. */
  lemma RowsDoNotOverlap(wb: Writeback, width: nat, x: nat, y: nat, x': nat, y': nat)
    requires width * Cpp(wb.format) <= wb.pitch && x < width && x' < width && y < y'
    ensures WbOffset(wb, x, y) + Cpp(wb.format) <= WbOffset(wb, x', y')
  {
    var c := Cpp(wb.format);
    assert y / 1 == y && y' / 1 == y' && wb.pitch * 1 == wb.pitch;
    MulUp(y + 1, y', wb.pitch);
    assert (y + 1) * wb.pitch == y * wb.pitch + wb.pitch;
    MulUp(x + 1, width, c);
  }

  /** The row as it stands in the buffer. */
  ghost predicate RowWritten(wb: Writeback, buffer: seq<Byte>, row: seq<Pixel>, y: nat) {
    forall x: nat :: x < MinNat(wb.width, |row|) ==> PixelWritten(wb, buffer, row[x], x, y)
  }

  function MinNat(a: nat, b: nat): nat { if a <= b then a else b }

  /** Byte k belongs to the row's pixels. */
  predicate InRow(wb: Writeback, pixels: nat, y: nat, k: int) {
    WbOffset(wb, 0, y) <= k < WbOffset(wb, MinNat(wb.width, pixels), y)
  }

  method WritebackRow(wb: Writeback, buffer: array<Byte>, row: seq<Pixel>, y: nat)
    requires forall x: nat :: x < MinNat(wb.width, |row|) ==> 0 <= WbOffset(wb, x, y) <= buffer.Length - Cpp(wb.format)
    modifies buffer
    ensures RowWritten(wb, buffer[..], row, y)
    ensures forall k :: 0 <= k < buffer.Length && !InRow(wb, |row|, y, k) ==> buffer[k] == old(buffer[k])
  {
    hide Encode, Cpp, WbOffset;
    var c := Cpp(wb.format);
    var dst := PackedOffset(wb.offset, wb.pitch, c, 1, 1, wb.left, y).0;
    WbStart(wb, y);
    var limit := MinNat(wb.width, |row|);
    var x: nat := 0;
    while x < limit
      invariant x <= limit && dst == WbOffset(wb, x, y)
      invariant forall k: nat :: k < x ==> PixelWritten(wb, buffer[..], row[k], k, y)
      invariant forall k :: 0 <= k < buffer.Length && !(WbOffset(wb, 0, y) <= k < dst) ==> buffer[k] == old(buffer[k])
    {
      WbOrder(wb, x, y);
      ghost var before := buffer[..];
      WritePixel(buffer, dst, Encode(wb.format, row[x]));
      forall k: nat | k < x ensures PixelWritten(wb, buffer[..], row[k], k, y) {
        PixelKept(wb, before, buffer[..], row[k], k, y, dst);
      }
      dst := dst + c;
      x := x + 1;
    }
  }

  /** The bytes of pixel x of row y are those of p. */
  ghost predicate PixelWritten(wb: Writeback, buffer: seq<Byte>, p: Pixel, x: nat, y: nat) {
    var o := WbOffset(wb, x, y);
    0 <= o && o + Cpp(wb.format) <= |buffer| && buffer[o..o + Cpp(wb.format)] == Encode(wb.format, p)
  }

  lemma PixelKept(wb: Writeback, before: seq<Byte>, after: seq<Byte>, p: Pixel, x: nat, y: nat, limit: int)
    requires PixelWritten(wb, before, p, x, y) && WbOffset(wb, x, y) + Cpp(wb.format) <= limit <= |before| == |after|
    requires forall k :: 0 <= k < limit ==> after[k] == before[k]
    ensures PixelWritten(wb, after, p, x, y)
  {
    hide Encode, WbOffset;
    var o := WbOffset(wb, x, y);
    assert after[o..o + Cpp(wb.format)] == before[o..o + Cpp(wb.format)];
  }

  method WritePixel(buffer: array<Byte>, dst: nat, bytes: seq<Byte>)
    requires dst + |bytes| <= buffer.Length
    modifies buffer
    ensures buffer[dst..dst + |bytes|] == bytes
    ensures forall k :: 0 <= k < buffer.Length && !(dst <= k < dst + |bytes|) ==> buffer[k] == old(buffer[k])
  {
    forall i | 0 <= i < |bytes| {
      buffer[dst + i] := bytes[i];
    }
  }

  lemma WbStart(wb: Writeback, y: nat)
    ensures WbOffset(wb, 0, y) == PackedOffset(wb.offset, wb.pitch, Cpp(wb.format), 1, 1, wb.left, y).0
  {
  }

  lemma WbOffsetIs(wb: Writeback, x: nat, y: nat)
    ensures WbOffset(wb, x, y) == wb.offset + y * wb.pitch + (wb.left + x) * Cpp(wb.format)
  {
    assert wb.left / 1 == wb.left && y / 1 == y && wb.pitch * 1 == wb.pitch;
    assert (wb.left + x) * Cpp(wb.format) == wb.left * Cpp(wb.format) + x * Cpp(wb.format);
  }

  lemma WbOrder(wb: Writeback, x: nat, y: nat)
    ensures WbOffset(wb, x + 1, y) == WbOffset(wb, x, y) + Cpp(wb.format)
    ensures forall k: nat :: k <= x ==> WbOffset(wb, k, y) <= WbOffset(wb, x, y)
    ensures forall k: nat :: k < x ==> WbOffset(wb, k, y) + Cpp(wb.format) <= WbOffset(wb, x, y)
  {
    hide PackedOffset;
    var c := Cpp(wb.format);
    assert (x + 1) * c == x * c + c;
    forall k: nat | k < x ensures WbOffset(wb, k, y) + c <= WbOffset(wb, x, y) {
      MulUp(k + 1, x, c);
    }
  }
}
