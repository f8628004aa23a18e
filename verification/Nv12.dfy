/** The conversion loops and the two pitched copies that bring a BGRx frame into an encoder surface. */
module Nv12 {
  import opened Bits
  import opened Colour

  /** The formulas on the pixel whose four bytes begin at i: blue, green, red, unused. */
  function LumaAt(src: seq<Byte>, i: nat): Byte
    requires i + 3 < |src|
  {
    Luma(src[i + 2], src[i + 1], src[i])
  }

  function CbAt(src: seq<Byte>, i: nat): Byte
    requires i + 3 < |src|
  {
    Cb(src[i + 2], src[i + 1], src[i])
  }

  function CrAt(src: seq<Byte>, i: nat): Byte
    requires i + 3 < |src|
  {
    Cr(src[i + 2], src[i + 1], src[i])
  }

  /** Where row y of a plane begins. */
  function RowStart(base: nat, pitch: nat, y: nat): nat { base + y * pitch }

  lemma RowsAscend(base: nat, pitch: nat, y: nat, y': nat)
    requires y < y'
    ensures RowStart(base, pitch, y) + pitch <= RowStart(base, pitch, y')
  {
    MulMonotone(pitch, y + 1, y');
    assert (y + 1) * pitch == y * pitch + pitch;
  }

  /** The four bytes of every pixel of the frame are there. */
  ghost predicate FrameFits(src: seq<Byte>, stride: nat, width: nat, height: nat) {
    4 * width <= stride && forall y: nat :: y < height ==> RowStart(0, stride, y) + 4 * width <= |src|
  }

  /** Row y of the luma plane is the formula on row y of the picture. */
  ghost predicate LumaRow(out: seq<Byte>, start: nat, src: seq<Byte>, s: nat, width: nat) {
    start + width <= |out| && s + 4 * width <= |src| &&
    forall x :: 0 <= x < width ==> out[start + x] == LumaAt(src, s + 4 * x)
  }

  ghost predicate ChromaRow(out: seq<Byte>, start: nat, src: seq<Byte>, s: nat, width: nat) {
    start + width <= |out| && s + 4 * width <= |src| &&
    forall x :: 0 <= x < width / 2 ==>
      out[start + 2 * x] == CbAt(src, s + 8 * x) && out[start + 2 * x + 1] == CrAt(src, s + 8 * x)
  }

  /** The two agree outside one stretch. */
  ghost predicate Agree(before: seq<Byte>, after: seq<Byte>, from: int, to: int) {
    |before| == |after| && forall k :: 0 <= k < |before| && !(from <= k < to) ==> after[k] == before[k]
  }

  method ConvertLumaRow(src: seq<Byte>, s: nat, dst: array<Byte>, d: nat, width: nat)
    requires s + 4 * width <= |src| && d + width <= dst.Length
    modifies dst
    ensures LumaRow(dst[..], d, src, s, width) && Agree(old(dst[..]), dst[..], d, d + width)
  {
    hide Luma;
    for x := 0 to width
      invariant forall k :: 0 <= k < x ==> dst[d + k] == LumaAt(src, s + 4 * k)
      invariant forall k :: 0 <= k < dst.Length && !(d <= k < d + x) ==> dst[k] == old(dst[k])
    {
      var b, g, r := src[s + x * 4], src[s + x * 4 + 1], src[s + x * 4 + 2];
      dst[d + x] := Luma(r, g, b);
    }
  }

  /** One pair per two columns, from the left one. */
  method ConvertChromaRow(src: seq<Byte>, s: nat, dst: array<Byte>, d: nat, width: nat)
    requires width % 2 == 0 && s + 4 * width <= |src| && d + width <= dst.Length
    modifies dst
    ensures ChromaRow(dst[..], d, src, s, width) && Agree(old(dst[..]), dst[..], d, d + width)
  {
    hide Cb, Cr;
    var x := 0;
    while x < width
      invariant 0 <= x <= width && x % 2 == 0
      invariant forall k :: 0 <= k < x / 2 ==>
        dst[d + 2 * k] == CbAt(src, s + 8 * k) && dst[d + 2 * k + 1] == CrAt(src, s + 8 * k)
      invariant forall k :: 0 <= k < dst.Length && !(d <= k < d + x) ==> dst[k] == old(dst[k])
    {
      var b, g, r := src[s + x * 4], src[s + x * 4 + 1], src[s + x * 4 + 2];
      dst[d + x] := Cb(r, g, b);
      dst[d + x + 1] := Cr(r, g, b);
      x := x + 2;
    }
  }

  /** The first n rows of a luma plane, and the first n of a chroma plane: one for every other picture row. */
  ghost predicate LumaRows(out: seq<Byte>, base: nat, pitch: nat, src: seq<Byte>, stride: nat, width: nat, n: nat) {
    forall y: nat :: y < n ==> LumaRow(out, RowStart(base, pitch, y), src, RowStart(0, stride, y), width)
  }

  ghost predicate ChromaRows(out: seq<Byte>, base: nat, pitch: nat, src: seq<Byte>, stride: nat, width: nat, n: nat) {
    forall y: nat :: y < n ==> ChromaRow(out, RowStart(base, pitch, y), src, RowStart(0, stride, 2 * y), width)
  }

  lemma LumaRowKept(before: seq<Byte>, after: seq<Byte>, start: nat, src: seq<Byte>, s: nat, width: nat,
                    from: nat, to: nat)
    requires LumaRow(before, start, src, s, width) && Agree(before, after, from, to)
    requires start + width <= from || to <= start
    ensures LumaRow(after, start, src, s, width)
  {
    hide LumaAt;
  }

  lemma ChromaRowKept(before: seq<Byte>, after: seq<Byte>, start: nat, src: seq<Byte>, s: nat, width: nat,
                      from: nat, to: nat)
    requires width % 2 == 0 && ChromaRow(before, start, src, s, width) && Agree(before, after, from, to)
    requires start + width <= from || to <= start
    ensures ChromaRow(after, start, src, s, width)
  {
    hide CbAt, CrAt;
    forall x | 0 <= x < width / 2
      ensures after[start + 2 * x] == CbAt(src, s + 8 * x) && after[start + 2 * x + 1] == CrAt(src, s + 8 * x)
    {
      assert after[start + 2 * x] == before[start + 2 * x];
      assert after[start + 2 * x + 1] == before[start + 2 * x + 1];
    }
  }

  /** Writing behind n rows, or in front of the plane, keeps them. */
  lemma LumaKept(before: seq<Byte>, after: seq<Byte>, base: nat, pitch: nat, src: seq<Byte>, stride: nat,
                 width: nat, n: nat, from: nat, to: nat)
    requires width <= pitch && LumaRows(before, base, pitch, src, stride, width, n) && Agree(before, after, from, to)
    requires RowStart(base, pitch, n) <= from || to <= base
    ensures LumaRows(after, base, pitch, src, stride, width, n)
  {
    hide Agree, LumaRow, RowStart;
    forall y: nat | y < n ensures LumaRow(after, RowStart(base, pitch, y), src, RowStart(0, stride, y), width) {
      RowsAscend(base, pitch, y, n);
      RowsFollow(base, pitch, y);
      LumaRowKept(before, after, RowStart(base, pitch, y), src, RowStart(0, stride, y), width, from, to);
    }
  }

  lemma ChromaKept(before: seq<Byte>, after: seq<Byte>, base: nat, pitch: nat, src: seq<Byte>, stride: nat,
                   width: nat, n: nat, from: nat, to: nat)
    requires width % 2 == 0 && width <= pitch
    requires ChromaRows(before, base, pitch, src, stride, width, n) && Agree(before, after, from, to)
    requires RowStart(base, pitch, n) <= from || to <= base
    ensures ChromaRows(after, base, pitch, src, stride, width, n)
  {
    hide Agree, ChromaRow, RowStart;
    forall y: nat | y < n ensures ChromaRow(after, RowStart(base, pitch, y), src, RowStart(0, stride, 2 * y), width) {
      RowsAscend(base, pitch, y, n);
      RowsFollow(base, pitch, y);
      ChromaRowKept(before, after, RowStart(base, pitch, y), src, RowStart(0, stride, 2 * y), width, from, to);
    }
  }

  lemma RowsFollow(base: nat, pitch: nat, y: nat)
    ensures base <= RowStart(base, pitch, y)
    ensures RowStart(base, pitch, y + 1) == RowStart(base, pitch, y) + pitch
  {
    assert (y + 1) * pitch == y * pitch + pitch;
  }

  /** A picture of the given size lies in out: luma rows, and a chroma row for every other picture row. */
  ghost predicate HoldsPicture(out: seq<Byte>, base: nat, pitch: nat, uvBase: nat, uvPitch: nat,
                               src: seq<Byte>, stride: nat, width: nat, height: nat)
  {
    && LumaRows(out, base, pitch, src, stride, width, height)
    && ChromaRows(out, uvBase, uvPitch, src, stride, width, height / 2)
  }

  /** Pixel by pixel: luma is the formula on the pixel, chroma the formula on the block's top-left pixel. */
  lemma HoldsEveryPixel(out: seq<Byte>, base: nat, pitch: nat, uvBase: nat, uvPitch: nat,
                        src: seq<Byte>, stride: nat, width: nat, height: nat, x: nat, y: nat)
    requires width % 2 == 0 && height % 2 == 0 && x < width && y < height && FrameFits(src, stride, width, height)
    requires HoldsPicture(out, base, pitch, uvBase, uvPitch, src, stride, width, height)
    ensures var own, corner := RowStart(0, stride, y) + 4 * x, RowStart(0, stride, 2 * (y / 2)) + 4 * (2 * (x / 2));
            var luma, pair := RowStart(base, pitch, y) + x, RowStart(uvBase, uvPitch, y / 2) + 2 * (x / 2);
            && own + 3 < |src| && corner + 3 < |src| && luma < |out| && pair + 1 < |out|
            && out[luma] == Luma(src[own + 2], src[own + 1], src[own])
            && out[pair] == Cb(src[corner + 2], src[corner + 1], src[corner])
            && out[pair + 1] == Cr(src[corner + 2], src[corner + 1], src[corner])
  {
    hide Luma, Cb, Cr, FrameFits, RowStart, LumaRows, ChromaRows;
    PixelLuma(out, base, pitch, src, stride, width, height, x, y);
    PixelChroma(out, uvBase, uvPitch, src, stride, width, height / 2, x / 2, y / 2);
  }

  lemma PixelLuma(out: seq<Byte>, base: nat, pitch: nat, src: seq<Byte>, stride: nat, width: nat, n: nat, x: nat,
                  y: nat)
    requires LumaRows(out, base, pitch, src, stride, width, n) && x < width && y < n
    ensures RowStart(0, stride, y) + 4 * x + 3 < |src| && RowStart(base, pitch, y) + x < |out|
    ensures out[RowStart(base, pitch, y) + x] == LumaAt(src, RowStart(0, stride, y) + 4 * x)
  {
    hide LumaAt, RowStart;
    assert LumaRow(out, RowStart(base, pitch, y), src, RowStart(0, stride, y), width);
  }

  lemma PixelChroma(out: seq<Byte>, base: nat, pitch: nat, src: seq<Byte>, stride: nat, width: nat, n: nat, x: nat,
                    y: nat)
    requires ChromaRows(out, base, pitch, src, stride, width, n) && 2 * x + 1 < width && y < n
    ensures RowStart(0, stride, 2 * y) + 8 * x + 3 < |src| && RowStart(base, pitch, y) + 2 * x + 1 < |out|
    ensures out[RowStart(base, pitch, y) + 2 * x] == CbAt(src, RowStart(0, stride, 2 * y) + 8 * x)
    ensures out[RowStart(base, pitch, y) + 2 * x + 1] == CrAt(src, RowStart(0, stride, 2 * y) + 8 * x)
  {
    hide CbAt, CrAt, RowStart;
    assert ChromaRow(out, RowStart(base, pitch, y), src, RowStart(0, stride, 2 * y), width);
  }

  /** The bytes that the conversion fills: the allocation's size, by its own formula. */
  function Needed(width: nat, height: nat): nat { width * height * 3 / 2 }

  lemma NeededIsBothPlanes(width: nat, height: nat)
    requires height % 2 == 0
    ensures RowStart(RowStart(0, width, height), width, height / 2) == Needed(width, height)
  {
    var h := height / 2;
    assert height * width == 2 * (h * width) by { assert height == 2 * h; }
    assert width * height == height * width;
  }

  /** The conversion: packed luma at the front, packed chroma behind it, nothing past the two. */
  method Convert(src: seq<Byte>, stride: nat, width: nat, height: nat, conv: array<Byte>)
    requires width % 2 == 0 && height % 2 == 0 && FrameFits(src, stride, width, height)
    requires Needed(width, height) <= conv.Length
    modifies conv
    ensures HoldsPicture(conv[..], 0, width, RowStart(0, width, height), width, src, stride, width, height)
    ensures forall k :: Needed(width, height) <= k < conv.Length ==> conv[k] == old(conv[k])
  {
    hide LumaRows, ChromaRows, LumaRow, ChromaRow, RowStart, Agree, LumaAt, CbAt, CrAt, Needed, FrameFits;
    var uv := RowStart(0, width, height);
    NeededIsBothPlanes(width, height);
    NoRows(conv[..], 0, uv, width, src, stride, width);
    for y := 0 to height
      invariant LumaRows(conv[..], 0, width, src, stride, width, y)
      invariant ChromaRows(conv[..], uv, width, src, stride, width, (y + 1) / 2)
      invariant forall k :: Needed(width, height) <= k < conv.Length ==> conv[k] == old(conv[k])
    {
      ConvertLuma(src, stride, width, height, conv, y);
      if y % 2 == 0 && y / 2 < height / 2 {
        ConvertChroma(src, stride, width, height, conv, y);
      }
    }
  }

  lemma NoRows(out: seq<Byte>, base: nat, uvBase: nat, pitch: nat, src: seq<Byte>, stride: nat, width: nat)
    ensures LumaRows(out, base, pitch, src, stride, width, 0) && ChromaRows(out, uvBase, pitch, src, stride, width, 0)
  {
  }

  /** The first half of one round of the conversion loop, and what it keeps. */
  method ConvertLuma(src: seq<Byte>, stride: nat, width: nat, height: nat, conv: array<Byte>, y: nat)
    requires width % 2 == 0 && height % 2 == 0 && FrameFits(src, stride, width, height)
    requires Needed(width, height) <= conv.Length && y < height
    requires LumaRows(conv[..], 0, width, src, stride, width, y)
    requires ChromaRows(conv[..], RowStart(0, width, height), width, src, stride, width, (y + 1) / 2)
    modifies conv
    ensures LumaRows(conv[..], 0, width, src, stride, width, y + 1)
    ensures ChromaRows(conv[..], RowStart(0, width, height), width, src, stride, width, (y + 1) / 2)
    ensures forall k :: Needed(width, height) <= k < conv.Length ==> conv[k] == old(conv[k])
  {
    hide LumaRows, ChromaRows, LumaRow, ChromaRow, RowStart, LumaAt, CbAt, CrAt, Needed;
    var s, d, uv := RowStart(0, stride, y), RowStart(0, width, y), RowStart(0, width, height);
    RowsAscend(0, width, y, height);
    RowsFollow(uv, width, height / 2);
    NeededIsBothPlanes(width, height);
    ghost var before := conv[..];
    ConvertLumaRow(src, s, conv, d, width);
    NewLumaRow(before, conv[..], 0, width, src, stride, width, y);
    ChromaKept(before, conv[..], uv, width, src, stride, width, (y + 1) / 2, d, d + width);
  }

  method ConvertChroma(src: seq<Byte>, stride: nat, width: nat, height: nat, conv: array<Byte>, y: nat)
    requires width % 2 == 0 && height % 2 == 0 && FrameFits(src, stride, width, height)
    requires Needed(width, height) <= conv.Length && y < height && y % 2 == 0
    requires LumaRows(conv[..], 0, width, src, stride, width, y + 1)
    requires ChromaRows(conv[..], RowStart(0, width, height), width, src, stride, width, (y + 1) / 2)
    modifies conv
    ensures LumaRows(conv[..], 0, width, src, stride, width, y + 1)
    ensures ChromaRows(conv[..], RowStart(0, width, height), width, src, stride, width, (y + 2) / 2)
    ensures forall k :: Needed(width, height) <= k < conv.Length ==> conv[k] == old(conv[k])
  {
    hide LumaRows, ChromaRows, LumaRow, ChromaRow, RowStart, LumaAt, CbAt, CrAt, Needed;
    var s, uv := RowStart(0, stride, y), RowStart(0, width, height);
    var d := RowStart(uv, width, y / 2);
    RowsFollow(uv, width, y / 2);
    RowsFollow(0, width, y + 1);
    RowsAscend(uv, width, y / 2, height / 2);
    RowsReach(0, width, y + 1, height);
    NeededIsBothPlanes(width, height);
    ghost var before := conv[..];
    ConvertChromaRow(src, s, conv, d, width);
    NewChromaRow(before, conv[..], uv, width, src, stride, width, y / 2);
    LumaKept(before, conv[..], 0, width, src, stride, width, y + 1, d, d + width);
  }

  lemma RowsReach(base: nat, pitch: nat, y: nat, n: nat)
    requires y <= n
    ensures RowStart(base, pitch, y) <= RowStart(base, pitch, n)
  {
    MulMonotone(pitch, y, n);
  }

  lemma NewLumaRow(before: seq<Byte>, after: seq<Byte>, base: nat, pitch: nat, src: seq<Byte>, stride: nat,
                   width: nat, y: nat)
    requires width <= pitch && LumaRows(before, base, pitch, src, stride, width, y)
    requires Agree(before, after, RowStart(base, pitch, y), RowStart(base, pitch, y) + width)
    requires LumaRow(after, RowStart(base, pitch, y), src, RowStart(0, stride, y), width)
    ensures LumaRows(after, base, pitch, src, stride, width, y + 1)
  {
    hide LumaRow, RowStart, Agree;
    LumaKept(before, after, base, pitch, src, stride, width, y, RowStart(base, pitch, y), RowStart(base, pitch,
        y) + width);
  }

  lemma NewChromaRow(before: seq<Byte>, after: seq<Byte>, base: nat, pitch: nat, src: seq<Byte>, stride: nat,
                     width: nat, y: nat)
    requires width % 2 == 0 && width <= pitch && ChromaRows(before, base, pitch, src, stride, width, y)
    requires Agree(before, after, RowStart(base, pitch, y), RowStart(base, pitch, y) + width)
    requires ChromaRow(after, RowStart(base, pitch, y), src, RowStart(0, stride, 2 * y), width)
    ensures ChromaRows(after, base, pitch, src, stride, width, y + 1)
  {
    hide ChromaRow, RowStart, Agree;
    ChromaKept(before, after, base, pitch, src, stride, width, y, RowStart(base, pitch, y), RowStart(base, pitch,
        y) + width);
  }

  // ---- the copies into the surface ----

  ghost predicate SameRow(out: seq<Byte>, d: nat, src: seq<Byte>, s: nat, width: nat) {
    d + width <= |out| && s + width <= |src| && out[d..d + width] == src[s..s + width]
  }

  /** k lies in one of the first n rows. */
  ghost predicate InRows(k: int, base: nat, pitch: nat, width: nat, n: nat) {
    exists y: nat :: y < n && RowStart(base, pitch, y) <= k < RowStart(base, pitch, y) + width
  }

  ghost predicate CopiedRows(out: seq<Byte>, base: nat, pitch: nat, src: seq<Byte>, s: nat, stride: nat, width: nat,
                             n: nat) {
    forall y: nat :: y < n ==> SameRow(out, RowStart(base, pitch, y), src, RowStart(s, stride, y), width)
  }

  /** Copying a block of bytes between distinct buffers. */
  method CopyBytes(src: seq<Byte>, s: nat, dst: array<Byte>, d: nat, width: nat)
    requires s + width <= |src| && d + width <= dst.Length
    modifies dst
    ensures SameRow(dst[..], d, src, s, width) && Agree(old(dst[..]), dst[..], d, d + width)
  {
    for x := 0 to width
      invariant forall k :: d <= k < d + x ==> dst[k] == src[s + k - d]
      invariant forall k :: 0 <= k < dst.Length && !(d <= k < d + x) ==> dst[k] == old(dst[k])
    {
      dst[d + x] := src[s + x];
    }
  }

  /** Where the last row of a plane ends: the padding behind it need not be there. */
  function PlaneEnd(base: nat, pitch: nat, width: nat, rows: nat): nat {
    if rows == 0 then base else RowStart(base, pitch, rows - 1) + width
  }

  lemma RowInPlane(base: nat, pitch: nat, width: nat, y: nat, rows: nat)
    requires width <= pitch && y < rows
    ensures base <= RowStart(base, pitch, y) && RowStart(base, pitch, y) + width <= PlaneEnd(base, pitch, width, rows)
  {
    hide RowStart;
    RowsFollow(base, pitch, y);
    if y < rows - 1 { RowsAscend(base, pitch, y, rows - 1); }
  }

  /** A packed plane ends where its next row would begin. */
  lemma PackedEnd(base: nat, width: nat, rows: nat)
    ensures PlaneEnd(base, width, width, rows) == RowStart(base, width, rows)
  {
    hide RowStart;
    FirstRow(base, width);
    if rows > 0 { RowsFollow(base, width, rows - 1); }
  }

  /** One plane: every row arrives, and no byte outside the rows changes. */
  method CopyPlane(src: seq<Byte>, from: nat, stride: nat, dst: array<Byte>, base: nat, pitch: nat, width: nat,
                   rows: nat)
    requires width <= pitch && width <= stride
    requires PlaneEnd(from, stride, width, rows) <= |src| && PlaneEnd(base, pitch, width, rows) <= dst.Length
    modifies dst
    ensures CopiedRows(dst[..], base, pitch, src, from, stride, width, rows)
    ensures forall k :: 0 <= k < dst.Length && !InRows(k, base, pitch, width, rows) ==> dst[k] == old(dst[k])
  {
    hide SameRow, RowStart, Agree, InRows, CopiedRows, PlaneEnd;
    var s, d := from, base;
    FirstRow(from, stride);
    FirstRow(base, pitch);
    NoCopies(dst[..], base, pitch, src, from, stride, width);
    for y := 0 to rows
      invariant s == RowStart(from, stride, y) && d == RowStart(base, pitch, y)
      invariant CopiedRows(dst[..], base, pitch, src, from, stride, width, y)
      invariant forall k :: 0 <= k < dst.Length && !InRows(k, base, pitch, width, y) ==> dst[k] == old(dst[k])
    {
      RowInPlane(from, stride, width, y, rows);
      RowInPlane(base, pitch, width, y, rows);
      RowsFollow(from, stride, y);
      RowsFollow(base, pitch, y);
      ghost var before := dst[..];
      CopyBytes(src, s, dst, d, width);
      NewCopiedRow(before, dst[..], base, pitch, src, from, stride, width, y);
      forall k | 0 <= k < dst.Length && !InRows(k, base, pitch, width, y + 1) ensures dst[k] == old(dst[k]) {
        OutsideMore(before, dst[..], k, base, pitch, width, y);
      }
      s, d := s + stride, d + pitch;
    }
  }

  lemma FirstRow(base: nat, pitch: nat)
    ensures RowStart(base, pitch, 0) == base
  {
  }

  lemma NoCopies(out: seq<Byte>, base: nat, pitch: nat, src: seq<Byte>, s: nat, stride: nat, width: nat)
    ensures CopiedRows(out, base, pitch, src, s, stride, width, 0)
  {
  }

  lemma OutsideMore(before: seq<Byte>, after: seq<Byte>, k: nat, base: nat, pitch: nat, width: nat, y: nat)
    requires Agree(before, after, RowStart(base, pitch, y), RowStart(base, pitch, y) + width) && k < |before|
    requires !InRows(k, base, pitch, width, y + 1)
    ensures !InRows(k, base, pitch, width, y) && after[k] == before[k]
  {
    hide RowStart;
  }

  lemma NewCopiedRow(before: seq<Byte>, after: seq<Byte>, base: nat, pitch: nat, src: seq<Byte>, s: nat, stride: nat,
                     width: nat, y: nat)
    requires width <= pitch && CopiedRows(before, base, pitch, src, s, stride, width, y)
    requires Agree(before, after, RowStart(base, pitch, y), RowStart(base, pitch, y) + width)
    requires SameRow(after, RowStart(base, pitch, y), src, RowStart(s, stride, y), width)
    ensures CopiedRows(after, base, pitch, src, s, stride, width, y + 1)
  {
    hide SameRow, RowStart, Agree;
    forall z: nat | z < y ensures SameRow(after, RowStart(base, pitch, z), src, RowStart(s, stride, z), width) {
      RowsAscend(base, pitch, z, y);
      SameRowKept(before, after, RowStart(base, pitch, z), src, RowStart(s, stride, z), width,
                  RowStart(base, pitch, y), RowStart(base, pitch, y) + width);
    }
  }

  lemma SameRowKept(before: seq<Byte>, after: seq<Byte>, d: nat, src: seq<Byte>, s: nat, width: nat, from: nat, to: nat)
    requires SameRow(before, d, src, s, width) && Agree(before, after, from, to) && (d + width <= from || to <= d)
    ensures SameRow(after, d, src, s, width)
  {
    assert after[d..d + width] == before[d..d + width];
  }

  /** What a derived image says about its two planes. */
  datatype Layout = Layout(lumaOffset: nat, lumaPitch: nat, chromaOffset: nat, chromaPitch: nat)

  /** Both planes lie in the buffer, wide enough for the picture, and do not overlap. */
  ghost predicate Suits(l: Layout, width: nat, height: nat, size: nat) {
    var lumaEnd := PlaneEnd(l.lumaOffset, l.lumaPitch, width, height);
    var chromaEnd := PlaneEnd(l.chromaOffset, l.chromaPitch, width, height / 2);
    && width <= l.lumaPitch && width <= l.chromaPitch && lumaEnd <= size && chromaEnd <= size
    && (lumaEnd <= l.chromaOffset || chromaEnd <= l.lumaOffset)
  }

  /** k belongs to the picture: in a row of one of the two planes, left of the padding. */
  ghost predicate InPicture(k: int, l: Layout, width: nat, height: nat) {
    || InRows(k, l.lumaOffset, l.lumaPitch, width, height)
    || InRows(k, l.chromaOffset, l.chromaPitch, width, height / 2)
  }

  /** Where the copy looks for chroma: a product of 32-bit numbers. */
  function ChromaSource(stride: nat, height: nat): nat { (height * stride) % TWO_TO_32 }

  /** It is the end of the luma plane exactly for planes below 4 GiB. */
  lemma ChromaSourceExactly(stride: nat, height: nat)
    ensures ChromaSource(stride, height) == RowStart(0, stride, height) <==> height * stride < TWO_TO_32
  {
  }

  /** The two copies: both planes arrive, and every byte outside the picture keeps its value. */
  method CopyPicture(nv12: seq<Byte>, stride: nat, width: nat, height: nat, surface: array<Byte>, l: Layout)
    requires width <= stride && height * stride < TWO_TO_32
    requires PlaneEnd(0, stride, width, height) <= |nv12|
    requires PlaneEnd(RowStart(0, stride, height), stride, width, height / 2) <= |nv12|
    requires Suits(l, width, height, surface.Length)
    modifies surface
    ensures CopiedRows(surface[..], l.lumaOffset, l.lumaPitch, nv12, 0, stride, width, height)
    ensures CopiedRows(surface[..], l.chromaOffset, l.chromaPitch, nv12, RowStart(0, stride, height), stride, width,
        height / 2)
    ensures forall k :: 0 <= k < surface.Length && !InPicture(k, l, width, height) ==> surface[k] == old(surface[k])
  {
    hide RowStart, InRows, CopiedRows, ChromaSource, PlaneEnd;
    ChromaSourceExactly(stride, height);
    CopyPlane(nv12, 0, stride, surface, l.lumaOffset, l.lumaPitch, width, height);
    ghost var before := surface[..];
    CopyPlane(nv12, ChromaSource(stride, height), stride, surface, l.chromaOffset, l.chromaPitch, width, height / 2);
    ApartKept(before, surface[..], l.lumaOffset, l.lumaPitch, nv12, 0, stride, width, height,
              l.chromaOffset, l.chromaPitch, height / 2);
  }

  /** Writing the rows of one plane keeps the copied rows of another that lies apart. */
  lemma ApartKept(before: seq<Byte>, after: seq<Byte>, base: nat, pitch: nat, src: seq<Byte>, s: nat, stride: nat,
                  width: nat, n: nat, base': nat, pitch': nat, n': nat)
    requires width <= pitch && width <= pitch' && |before| == |after|
    requires PlaneEnd(base, pitch, width, n) <= base' || PlaneEnd(base', pitch', width, n') <= base
    requires CopiedRows(before, base, pitch, src, s, stride, width, n)
    requires forall k :: 0 <= k < |before| && !InRows(k, base', pitch', width, n') ==> after[k] == before[k]
    ensures CopiedRows(after, base, pitch, src, s, stride, width, n)
  {
    hide SameRow, RowStart, InRows, PlaneEnd;
    assert Agree(before, after, base', PlaneEnd(base', pitch', width, n')) by {
      forall k | 0 <= k < |before| && !(base' <= k < PlaneEnd(base', pitch', width, n')) ensures after[k] == before[k] {
        RowsInside(k, base', pitch', width, n');
      }
    }
    hide Agree;
    forall y: nat | y < n ensures SameRow(after, RowStart(base, pitch, y), src, RowStart(s, stride, y), width) {
      RowInPlane(base, pitch, width, y, n);
      SameRowKept(before, after, RowStart(base, pitch, y), src, RowStart(s, stride, y), width,
                  base', PlaneEnd(base', pitch', width, n'));
    }
  }

  lemma RowsInside(k: int, base: nat, pitch: nat, width: nat, n: nat)
    requires width <= pitch
    ensures InRows(k, base, pitch, width, n) ==> base <= k < PlaneEnd(base, pitch, width, n)
  {
    hide RowStart, PlaneEnd;
    if InRows(k, base, pitch, width, n) {
      var y: nat :| y < n && RowStart(base, pitch, y) <= k < RowStart(base, pitch, y) + width;
      RowInPlane(base, pitch, width, y, n);
    }
  }

  /** The conversion buffer is there and large enough. */
  predicate Enough(conv: array?<Byte>, width: nat, height: nat) {
    conv != null && Needed(width, height) <= conv.Length
  }

  /**
   * From the captured frame to the surface, through the conversion buffer, which is replaced if it is too
   * small. Without the memory for that the buffer is gone and nothing is written; otherwise the picture
   * arrives and all bytes outside it keep their values.
   */
  method EncodeBgrx(bgrx: seq<Byte>, stride: nat, width: nat, height: nat, conv: array?<Byte>, memory: bool,
                    surface: array<Byte>, l: Layout) returns (ok: bool, buf: array?<Byte>)
    requires width % 2 == 0 && height % 2 == 0 && FrameFits(bgrx, stride, width, height)
    requires height * width < TWO_TO_32
    requires conv != surface && Suits(l, width, height, surface.Length)
    modifies conv, surface
    ensures ok <==> Enough(conv, width, height) || memory
    ensures if ok then Enough(buf, width, height) && (buf == conv || fresh(buf)) else buf == null
    ensures ok ==>
      HoldsPicture(surface[..], l.lumaOffset, l.lumaPitch, l.chromaOffset, l.chromaPitch, bgrx, stride, width, height)
    ensures !ok ==> surface[..] == old(surface[..])
    ensures forall k :: 0 <= k < surface.Length && !InPicture(k, l, width, height) ==> surface[k] == old(surface[k])
  {
    hide RowStart, InPicture, CopiedRows, LumaRows, ChromaRows, Suits, Needed, FrameFits;
    buf := conv;
    if buf == null || Needed(width, height) > buf.Length {
      if !memory {
        return false, null;
      }
      buf := new Byte[Needed(width, height)];
    }
    ok := true;
    Convert(bgrx, stride, width, height, buf);
    NeededIsBothPlanes(width, height);
    ghost var nv12 := buf[..];
    PackedEnd(0, width, height);
    PackedEnd(RowStart(0, width, height), width, height / 2);
    RowsFollow(RowStart(0, width, height), width, height / 2);
    CopyPicture(buf[..], width, width, height, surface, l);
    CopiedLuma(surface[..], l.lumaOffset, l.lumaPitch, nv12, 0, width, bgrx, stride, width, height);
    CopiedChroma(surface[..], l.chromaOffset, l.chromaPitch, nv12, RowStart(0, width, height), width, bgrx, stride,
        width, height / 2);
  }

  lemma CopiedLuma(out: seq<Byte>, base: nat, pitch: nat, mid: seq<Byte>, s: nat, midPitch: nat,
                   src: seq<Byte>, stride: nat, width: nat, n: nat)
    requires CopiedRows(out, base, pitch, mid, s, midPitch, width, n)
    requires LumaRows(mid, s, midPitch, src, stride, width, n)
    ensures LumaRows(out, base, pitch, src, stride, width, n)
  {
    hide RowStart, SameRow, LumaRow;
    forall y: nat | y < n ensures LumaRow(out, RowStart(base, pitch, y), src, RowStart(0, stride, y), width) {
      assert SameRow(out, RowStart(base, pitch, y), mid, RowStart(s, midPitch, y), width);
      CopiedLumaRow(out, RowStart(base, pitch, y), mid, RowStart(s, midPitch, y), src, RowStart(0, stride, y), width);
    }
  }

  lemma CopiedChroma(out: seq<Byte>, base: nat, pitch: nat, mid: seq<Byte>, s: nat, midPitch: nat,
                     src: seq<Byte>, stride: nat, width: nat, n: nat)
    requires width % 2 == 0 && CopiedRows(out, base, pitch, mid, s, midPitch, width, n)
    requires ChromaRows(mid, s, midPitch, src, stride, width, n)
    ensures ChromaRows(out, base, pitch, src, stride, width, n)
  {
    hide RowStart, SameRow, ChromaRow;
    forall y: nat | y < n ensures ChromaRow(out, RowStart(base, pitch, y), src, RowStart(0, stride, 2 * y), width) {
      assert SameRow(out, RowStart(base, pitch, y), mid, RowStart(s, midPitch, y), width);
      CopiedChromaRow(out, RowStart(base, pitch, y), mid, RowStart(s, midPitch, y), src, RowStart(0, stride, 2 * y),
          width);
    }
  }

  lemma CopiedAt(out: seq<Byte>, d: nat, mid: seq<Byte>, m: nat, width: nat, x: nat)
    requires SameRow(out, d, mid, m, width) && x < width
    ensures out[d + x] == mid[m + x]
  {
    assert out[d..d + width][x] == mid[m..m + width][x];
  }

  lemma CopiedLumaRow(out: seq<Byte>, d: nat, mid: seq<Byte>, m: nat, src: seq<Byte>, s: nat, width: nat)
    requires SameRow(out, d, mid, m, width) && LumaRow(mid, m, src, s, width)
    ensures LumaRow(out, d, src, s, width)
  {
    hide LumaAt;
    forall x | 0 <= x < width ensures out[d + x] == LumaAt(src, s + 4 * x) { CopiedAt(out, d, mid, m, width, x); }
  }

  lemma CopiedChromaRow(out: seq<Byte>, d: nat, mid: seq<Byte>, m: nat, src: seq<Byte>, s: nat, width: nat)
    requires width % 2 == 0 && SameRow(out, d, mid, m, width) && ChromaRow(mid, m, src, s, width)
    ensures ChromaRow(out, d, src, s, width)
  {
    hide CbAt, CrAt;
    forall x | 0 <= x < width / 2
      ensures out[d + 2 * x] == CbAt(src, s + 8 * x) && out[d + 2 * x + 1] == CrAt(src, s + 8 * x)
    {
      CopiedAt(out, d, mid, m, width, 2 * x);
      CopiedAt(out, d, mid, m, width, 2 * x + 1);
    }
  }
}
