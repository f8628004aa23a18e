/** Pre-multiplied blending in 16-bit channels, with the 32-bit arithmetic of the composer. */
module Blending {
  import opened Bits

  type U16 = x: int | 0 <= x < 0x1_0000

  const MAX16: int := 0xffff

  datatype Pixel = Pixel(a: U16, r: U16, g: U16, b: U16)

  /** The unreduced sum of a blend: the exact result times 0xffff. */
  function BlendSum(src: U16, dst: U16, alpha: U16): int {
    src * MAX16 + dst * (MAX16 - alpha)
  }

  /** x / 0xffff rounded to the nearest integer. */
  function Rounded(x: int): int { (x + 0x7fff) / MAX16 }

  /** The channel blend: the sum and the rounding wrap at 32 bits, the result is cut to 16. */
  function BlendChannel(src: U16, dst: U16, alpha: U16): U16 {
    var sum := (src * MAX16 + dst * (MAX16 - alpha)) % TWO_TO_32;
    (sum + 0x7fff) % TWO_TO_32 / MAX16 % 0x1_0000
  }

  lemma SumBounds(src: U16, dst: U16, alpha: U16)
    ensures 0 <= BlendSum(src, dst, alpha)
    ensures src <= alpha ==> BlendSum(src, dst, alpha) <= MAX16 * MAX16
  {
    MulUp(0, dst, MAX16 - alpha);
    MulUp(dst, MAX16, MAX16 - alpha);
  }

  lemma MulUp(a: int, b: int, k: int)
    requires a <= b && 0 <= k
    ensures a * k <= b * k
  {
  }

  /** The arithmetic is right exactly when the exact result still rounds to at most 0xffff. */
  lemma BlendChannelExactly(src: U16, dst: U16, alpha: U16)
    ensures BlendChannel(src, dst, alpha) == Rounded(BlendSum(src, dst, alpha)) <==>
            BlendSum(src, dst, alpha) < MAX16 * MAX16 + 0x8000
  {
    SumBounds(src, dst, alpha);
    ReduceExactly(BlendSum(src, dst, alpha));
  }

  lemma ReduceExactly(sum: int)
    requires 0 <= sum
    ensures (sum % TWO_TO_32 + 0x7fff) % TWO_TO_32 / MAX16 % 0x1_0000 == Rounded(sum) <==>
            sum < MAX16 * MAX16 + 0x8000
  {
    if sum < MAX16 * MAX16 + 0x8000 {
      assert sum % TWO_TO_32 == sum && (sum + 0x7fff) % TWO_TO_32 == sum + 0x7fff;
    }
  }

  /** An opaque background under a source that is not pre-multiplied does wrap. */
  lemma UnmultipliedWraps()
    ensures BlendChannel(0xffff, 0xffff, 0) != Rounded(BlendSum(0xffff, 0xffff, 0))
  {
  }

  /** Pre-multiplied sources never wrap, and rounding is off by less than half a step. */
  lemma PremultipliedBlend(src: U16, dst: U16, alpha: U16)
    requires src <= alpha
    ensures var out := BlendChannel(src, dst, alpha);
            -0x7fff <= MAX16 * out - BlendSum(src, dst, alpha) <= 0x7fff
  {
    SumBounds(src, dst, alpha);
    BlendChannelExactly(src, dst, alpha);
  }

  function BlendPixel(src: Pixel, dst: Pixel): Pixel {
    Pixel(MAX16, BlendChannel(src.r, dst.r, src.a), BlendChannel(src.g, dst.g, src.a), BlendChannel(src.b, dst.b, src.a))
  }

  const BACKGROUND: Pixel := Pixel(0xffff, 0, 0, 0)

  /** Blending pixels over the background, first pixel lowest. */
  function BlendAll(layers: seq<Pixel>): Pixel {
    if layers == [] then BACKGROUND else BlendPixel(layers[|layers| - 1], BlendAll(layers[..|layers| - 1]))
  }

  datatype Channel = Red | Green | Blue

  function Get(c: Channel, p: Pixel): U16 {
    match c
    case Red => p.r
    case Green => p.g
    case Blue => p.b
  }

  predicate Premultiplied(p: Pixel) { p.r <= p.a && p.g <= p.a && p.b <= p.a }

  /** The same composition without rounding. */
  function ExactAll(c: Channel, layers: seq<Pixel>): real {
    if layers == [] then Get(c, BACKGROUND) as real
    else
      var top := layers[|layers| - 1];
      ExactOver(Get(c, top), MAX16 - top.a, ExactAll(c, layers[..|layers| - 1]))
  }

  /** A source over what lies under it, t being the source's transparency out of 0xffff. */
  function ExactOver(src: int, t: int, under: real): real { src as real + under * t as real / 65535.0 }

  function Distance(x: real, y: real): real { if x <= y then y - x else x - y }

  /** One layer adds at most one rounding to an error that the layer's transparency cannot enlarge. */
  lemma OneLayerError(top: Pixel, c: Channel, under: Pixel, exact: real, bound: real)
    requires Premultiplied(top) && Distance(Get(c, under) as real, exact) <= bound
    ensures Distance(Get(c, BlendPixel(top, under)) as real, ExactOver(Get(c, top), MAX16 - top.a, exact))
            <= bound + 32767.0 / 65535.0
  {
    hide BlendChannel, Distance, ExactOver;
    var src, dst := Get(c, top), Get(c, under);
    PremultipliedBlend(src, dst, top.a);
    ErrorStep(Get(c, BlendPixel(top, under)), src, dst, MAX16 - top.a, exact, bound);
  }

  lemma ErrorStep(out: int, src: int, dst: int, t: int, exact: real, bound: real)
    requires 0 <= t <= 65535 && Distance(dst as real, exact) <= bound
    requires -0x7fff <= 65535 * out - (src * 65535 + dst * t) <= 0x7fff
    ensures Distance(out as real, ExactOver(src, t, exact)) <= bound + 32767.0 / 65535.0
  {
    var w := t as real / 65535.0;
    var e := dst as real - exact;
    assert exact * t as real / 65535.0 == exact * w;
    assert (dst * t) as real == dst as real * t as real;
    var rounding := (65535 * out - (src * 65535 + dst * t)) as real / 65535.0;
    assert rounding == out as real - src as real - dst as real * w;
    assert dst as real * w - exact * w == e * w;
    assert -bound <= e * w <= bound by { Shrink(e, w, bound); }
  }

  lemma Sign(x: real, y: real)
    requires 0.0 <= x && 0.0 <= y
    ensures 0.0 <= x * y
  {
  }

  lemma Shrink(e: real, w: real, bound: real)
    requires -bound <= e <= bound && 0.0 <= w <= 1.0
    ensures -bound <= e * w <= bound
  {
    if e >= 0.0 {
      Sign(e, w);
      Sign(e, 1.0 - w);
      assert e * (1.0 - w) == e - e * w;
    } else {
      Sign(-e, w);
      Sign(-e, 1.0 - w);
      assert -e * w == -(e * w) && -e * (1.0 - w) == -e + e * w;
    }
  }

  /** n layers are off by at most n roundings, the result is opaque, and no channel leaves its 16 bits. */
  lemma {:induction false} CompositionError(c: Channel, layers: seq<Pixel>)
    requires forall i :: 0 <= i < |layers| ==> Premultiplied(layers[i])
    ensures Distance(Get(c, BlendAll(layers)) as real, ExactAll(c, layers)) <= |layers| as real * (32767.0 / 65535.0)
    ensures BlendAll(layers).a == MAX16
  {
    hide BlendPixel, Get, Distance, ExactOver;
    if layers == [] {
      NoError(Get(c, BACKGROUND) as real);
    } else {
      var n := |layers| - 1;
      assert |layers| as real == n as real + 1.0;
      CompositionError(c, layers[..n]);
      OneLayerError(layers[n], c, BlendAll(layers[..n]), ExactAll(c, layers[..n]), n as real * (32767.0 / 65535.0));
      OpaqueResult(layers[n], BlendAll(layers[..n]));
    }
  }

  lemma NoError(x: real)
    ensures Distance(x, x) == 0.0
  {
  }

  lemma OpaqueResult(src: Pixel, dst: Pixel)
    ensures BlendPixel(src, dst).a == MAX16
  {
  }
}
