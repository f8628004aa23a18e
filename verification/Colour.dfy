/** BGRx to NV12 on the sender, NV12 to RGB in the receiver's shader, and the copies in between. */
module Colour {
  import opened Bits

  // ---- the formulas ----

  function Luma(r: Byte, g: Byte, b: Byte): Byte { ((66 * r + 129 * g + 25 * b + 128) / 256 + 16) % 256 }

  /** The shift of a negative sum rounds down, as Dafny's division by a positive number does. */
  function Cb(r: Byte, g: Byte, b: Byte): Byte { ((-38 * r - 74 * g + 112 * b + 128) / 256 + 128) % 256 }

  function Cr(r: Byte, g: Byte, b: Byte): Byte { ((112 * r - 94 * g - 18 * b + 128) / 256 + 128) % 256 }

  /** The results stay in the limited range, so the casts to a byte change nothing. */
  lemma LimitedRange(r: Byte, g: Byte, b: Byte)
    ensures Luma(r, g, b) == (66 * r + 129 * g + 25 * b + 128) / 256 + 16 && 16 <= Luma(r, g, b) <= 235
    ensures Cb(r, g, b) == (-38 * r - 74 * g + 112 * b + 128) / 256 + 128 && 16 <= Cb(r, g, b) <= 240
    ensures Cr(r, g, b) == (112 * r - 94 * g - 18 * b + 128) / 256 + 128 && 16 <= Cr(r, g, b) <= 240
    ensures r == g == b ==> Cb(r, g, b) == Cr(r, g, b) == 128
  {
    var qy, ey := Shifted(66 * r + 129 * g + 25 * b + 128);
    var qu, eu := Shifted(-38 * r - 74 * g + 112 * b + 128);
    var qv, ev := Shifted(112 * r - 94 * g - 18 * b + 128);
    assert 0 <= qy <= 219 && -112 <= qu <= 112 && -112 <= qv <= 112;
    SmallMod(qy + 16);
    SmallMod(qu + 128);
    SmallMod(qv + 128);
  }

  lemma SmallMod(n: nat)
    requires n < 256
    ensures n % 256 == n
  {
  }

  /** The exact BT.601 values for a colour with components out of 255, in limited range. */
  function ExactLuma(r: Byte, g: Byte, b: Byte): real {
    16.0 + (65.481 * r as real + 128.553 * g as real + 24.966 * b as real) / 255.0
  }

  function ExactCb(r: Byte, g: Byte, b: Byte): real {
    128.0 + (-37.797 * r as real - 74.203 * g as real + 112.0 * b as real) / 255.0
  }

  function ExactCr(r: Byte, g: Byte, b: Byte): real {
    128.0 + (112.0 * r as real - 93.786 * g as real - 18.214 * b as real) / 255.0
  }

  /** The integer formulas stay within one code value of the standard's, for every colour. */
  lemma CloseToStandard(r: Byte, g: Byte, b: Byte)
    ensures Within(Luma(r, g, b) as real, ExactLuma(r, g, b), 1.0)
    ensures Within(Cb(r, g, b) as real, ExactCb(r, g, b), 1.0)
    ensures Within(Cr(r, g, b) as real, ExactCr(r, g, b), 1.0)
  {
    LimitedRange(r, g, b);
    hide Luma, Cb, Cr;
    var qy, ey := Shifted(66 * r + 129 * g + 25 * b + 128);
    var qu, eu := Shifted(-38 * r - 74 * g + 112 * b + 128);
    var qv, ev := Shifted(112 * r - 94 * g - 18 * b + 128);
    Near(66 * r + 129 * g + 25 * b + 128, qy, ey);
    Near(-38 * r - 74 * g + 112 * b + 128, qu, eu);
    Near(112 * r - 94 * g - 18 * b + 128, qv, ev);
  }

  /** A shift by eight of a sum with 128 added is within half of the quotient. */
  lemma Near(sum: int, q: int, e: int)
    requires sum == 256 * q + e && 0 <= e <= 255
    ensures sum as real / 256.0 - 255.0 / 256.0 <= q as real <= sum as real / 256.0
  {
    assert sum as real == 256.0 * q as real + e as real;
  }

  function Saturate(x: real): real { if x < 0.0 then 0.0 else if x > 1.0 then 1.0 else x }

  /** A sampled value, normalised and stretched from the limited range. */
  function StretchLuma(y: real): real { (y / 255.0 - 16.0 / 255.0) * (255.0 / 219.0) }

  function StretchChroma(c: real): real { (c / 255.0 - 128.0 / 255.0) * (255.0 / 224.0) }

  function FullLuma(y: Byte): real { StretchLuma(y as real) }

  function FullChroma(c: Byte): real { StretchChroma(c as real) }

  function MixRed(y: real, cr: real): real { y + 1.402 * cr }

  function MixGreen(y: real, cb: real, cr: real): real { y - 0.344136 * cb - 0.714136 * cr }

  function MixBlue(y: real, cb: real): real { y + 1.772 * cb }

  /** The shader's matrix is the inverse of the standard's, to a thousandth of a code value. */
  lemma ShaderInvertsStandard(r: Byte, g: Byte, b: Byte)
    ensures var y := StretchLuma(ExactLuma(r, g, b));
            var cb, cr := StretchChroma(ExactCb(r, g, b)), StretchChroma(ExactCr(r, g, b));
            && Within(255.0 * MixRed(y, cr), r as real, 0.001)
            && Within(255.0 * MixGreen(y, cb, cr), g as real, 0.001)
            && Within(255.0 * MixBlue(y, cb), b as real, 0.001)
  {
    var red, green, blue := r as real, g as real, b as real;
    assert 255.0 * StretchLuma(ExactLuma(r, g, b)) == (65.481 * red + 128.553 * green + 24.966 * blue) / 219.0;
    assert 255.0 * StretchChroma(ExactCb(r, g, b)) == (-37.797 * red - 74.203 * green + 112.0 * blue) / 224.0;
    assert 255.0 * StretchChroma(ExactCr(r, g, b)) == (112.0 * red - 93.786 * green - 18.214 * blue) / 224.0;
  }

  function ShaderRed(y: Byte, cb: Byte, cr: Byte): real { Saturate(MixRed(FullLuma(y), FullChroma(cr))) }

  function ShaderGreen(y: Byte, cb: Byte, cr: Byte): real {
    Saturate(MixGreen(FullLuma(y), FullChroma(cb), FullChroma(cr)))
  }

  function ShaderBlue(y: Byte, cb: Byte, cr: Byte): real { Saturate(MixBlue(FullLuma(y), FullChroma(cb))) }

  predicate Within(x: real, y: real, d: real) { -d <= x - y <= d }

  /** Clamping to the unit interval moves no value away from a code value. */
  lemma SaturateHelps(x: real, v: Byte, d: real)
    requires Within(255.0 * x, v as real, d)
    ensures Within(255.0 * Saturate(x), v as real, d)
  {
  }

  /** The quotient and remainder of a shift by eight, as reals. */
  lemma Shifted(sum: int) returns (q: int, e: int)
    ensures q == sum / 256 && sum == 256 * q + e && 0 <= e <= 255
  {
    q, e := sum / 256, sum % 256;
  }

  /** Encoding and decoding any colour returns red and green within 2 and blue within 3 code values. */
  lemma ColourRoundTrip(r: Byte, g: Byte, b: Byte)
    ensures var y, cb, cr := Luma(r, g, b), Cb(r, g, b), Cr(r, g, b);
            && Within(255.0 * ShaderRed(y, cb, cr), r as real, 2.0)
            && Within(255.0 * ShaderGreen(y, cb, cr), g as real, 2.0)
            && Within(255.0 * ShaderBlue(y, cb, cr), b as real, 3.0)
  {
    hide *;
    LimitedRange(r, g, b);
    var qy, ey := Shifted(66 * r + 129 * g + 25 * b + 128);
    var qu, eu := Shifted(-38 * r - 74 * g + 112 * b + 128);
    var qv, ev := Shifted(112 * r - 94 * g - 18 * b + 128);
    Linear(r, g, b, qy, qu, qv, ey, eu, ev);
    Saturated(Luma(r, g, b), Cb(r, g, b), Cr(r, g, b), r, g, b);
  }

  /** The shader's clamp keeps the bounds of the linear part. */
  lemma Saturated(y: Byte, cb: Byte, cr: Byte, r: Byte, g: Byte, b: Byte)
    requires Within(255.0 * MixRed(FullLuma(y), FullChroma(cr)), r as real, 2.0)
    requires Within(255.0 * MixGreen(FullLuma(y), FullChroma(cb), FullChroma(cr)), g as real, 2.0)
    requires Within(255.0 * MixBlue(FullLuma(y), FullChroma(cb)), b as real, 3.0)
    ensures Within(255.0 * ShaderRed(y, cb, cr), r as real, 2.0)
    ensures Within(255.0 * ShaderGreen(y, cb, cr), g as real, 2.0)
    ensures Within(255.0 * ShaderBlue(y, cb, cr), b as real, 3.0)
  {
    hide FullLuma, FullChroma, Saturate, Within;
    SaturateHelps(MixRed(FullLuma(y), FullChroma(cr)), r, 2.0);
    SaturateHelps(MixGreen(FullLuma(y), FullChroma(cb), FullChroma(cr)), g, 2.0);
    SaturateHelps(MixBlue(FullLuma(y), FullChroma(cb)), b, 3.0);
  }

  lemma Linear(r: Byte, g: Byte, b: Byte, qy: int, qu: int, qv: int, ey: int, eu: int, ev: int)
    requires 0 <= qy + 16 < 256 && 0 <= qu + 128 < 256 && 0 <= qv + 128 < 256
    requires 0 <= ey <= 255 && 0 <= eu <= 255 && 0 <= ev <= 255
    requires 66 * r + 129 * g + 25 * b + 128 == 256 * qy + ey
    requires -38 * r - 74 * g + 112 * b + 128 == 256 * qu + eu
    requires 112 * r - 94 * g - 18 * b + 128 == 256 * qv + ev
    ensures Within(255.0 * MixRed(FullLuma(qy + 16), FullChroma(qv + 128)), r as real, 2.0)
    ensures Within(255.0 * MixGreen(FullLuma(qy + 16), FullChroma(qu + 128), FullChroma(qv + 128)),
                   g as real, 2.0)
    ensures Within(255.0 * MixBlue(FullLuma(qy + 16), FullChroma(qu + 128)), b as real, 3.0)
  {
    var red, green, blue := r as real, g as real, b as real;
    var luma, cb, cr := qy as real, qu as real, qv as real;
    assert 66.0 * red + 129.0 * green + 25.0 * blue + 128.0 == 256.0 * luma + ey as real;
    assert -38.0 * red - 74.0 * green + 112.0 * blue + 128.0 == 256.0 * cb + eu as real;
    assert 112.0 * red - 94.0 * green - 18.0 * blue + 128.0 == 256.0 * cr + ev as real;
    assert 255.0 * FullLuma(qy + 16) == luma * 255.0 / 219.0;
    assert 255.0 * FullChroma(qu + 128) == cb * 255.0 / 224.0;
    assert 255.0 * FullChroma(qv + 128) == cr * 255.0 / 224.0;
  }

  /** No smaller whole number would do for red: this colour misses by more than 1. */
  lemma RedBoundIsBest()
    ensures !Within(255.0 * ShaderRed(Luma(2, 248, 246), Cb(2, 248, 246), Cr(2, 248, 246)), 2.0, 1.0)
  {
    assert Luma(2, 248, 246) == 166 && Cr(2, 248, 246) == 21;
    hide Luma, Cb, Cr;
    assert FullLuma(166) == 150.0 / 219.0;
    assert FullChroma(21) == -107.0 / 224.0;
    hide FullLuma, FullChroma;
  }

  lemma GreenBoundIsBest()
    ensures !Within(255.0 * ShaderGreen(Luma(251, 25, 2), Cb(251, 25, 2), Cr(251, 25, 2)), 25.0, 1.0)
  {
    assert Luma(251, 25, 2) == 94 && Cb(251, 25, 2) == 84 && Cr(251, 25, 2) == 228;
    hide Luma, Cb, Cr;
    assert FullLuma(94) == 78.0 / 219.0;
    assert FullChroma(84) == -44.0 / 224.0;
    assert FullChroma(228) == 100.0 / 224.0;
    hide FullLuma, FullChroma;
  }

  lemma BlueBoundIsBest()
    ensures !Within(255.0 * ShaderBlue(Luma(244, 255, 1), Cb(244, 255, 1), Cr(244, 255, 1)), 1.0, 2.0)
  {
    assert Luma(244, 255, 1) == 208 && Cb(244, 255, 1) == 19;
    hide Luma, Cb, Cr;
    assert FullLuma(208) == 192.0 / 219.0;
    assert FullChroma(19) == -109.0 / 224.0;
    hide FullLuma, FullChroma;
  }
}
