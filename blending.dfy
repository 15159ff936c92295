/** Reverse alpha blending (src/blending.rs).

    The watermark was applied with the forward compositing equation
      watermarked = alpha * logo + (1 - alpha) * original
    and the blender solves it for `original`, pixel by pixel, over the
    watermark region clipped to the image. f32 arithmetic is modelled on
    `real`; the `as u8` conversion after clamping is the floor. */
module Blending {
  import opened Numerics
  import opened Raster

  /** Pixels whose alpha is below this are left untouched (noise). */
  const AlphaThreshold: real := 0.002
  /** Alpha is capped here so that the divisor `1 - alpha` stays away from zero. */
  const MaxAlpha: real := 0.99

  // ---------------------------------------------------------------------------
  // Alpha map from a reference capture (calculate_alpha_map)
  // ---------------------------------------------------------------------------

  /** Opacity of one pixel of a capture on white: max(R, G, B) / 255. */
  function CaptureAlpha(p: Rgb): (a: real)
    ensures 0.0 <= a <= 1.0
    ensures a * 255.0 >= p.r as real && a * 255.0 >= p.g as real && a * 255.0 >= p.b as real
    ensures a * 255.0 == p.r as real || a * 255.0 == p.g as real || a * 255.0 == p.b as real
  {
    MaxReal(MaxReal(p.r as real, p.g as real), p.b as real) / 255.0
  }

  /** The opacities of a capture, row by row. */
  ghost function CaptureAlphaRows(capture: Image): (rows: seq<seq<real>>)
    reads capture.pixels
    requires capture.Valid()
    ensures |rows| == capture.height && Rectangular(rows, capture.width)
  {
    seq(capture.height, y requires 0 <= y < capture.height reads capture.pixels =>
      seq(capture.width, x requires 0 <= x < capture.width reads capture.pixels =>
        CaptureAlpha(capture.pixels[y, x])))
  }

  /** The per-pixel loop of `calculate_alpha_map`: visits the decoded capture
      in row-major order and pushes one opacity per pixel, so the map has
      `width * height` entries and entry `y * width + x` is the opacity of
      pixel (x, y). */
  method AlphaMapFromCapture(capture: Image) returns (alphaMap: seq<real>, width: nat, height: nat)
    requires capture.Valid()
    ensures width == capture.width && height == capture.height
    ensures alphaMap == Flatten(CaptureAlphaRows(capture))
    ensures |alphaMap| == width * height
    ensures forall y: nat, x: nat | y < height && x < width ::
              Idx(x, y, width) < |alphaMap| && alphaMap[Idx(x, y, width)] == CaptureAlpha(capture.pixels[y, x])
  {
    width, height := capture.width, capture.height;
    ghost var rows := CaptureAlphaRows(capture);
    alphaMap := [];
    for y := 0 to height
      invariant alphaMap == Flatten(rows[..y])
    {
      for x := 0 to width
        invariant alphaMap == Flatten(rows[..y]) + rows[y][..x]
      {
        alphaMap := alphaMap + [CaptureAlpha(capture.pixels[y, x])];
        assert rows[y][..x + 1] == rows[y][..x] + [rows[y][x]];
      }
      assert rows[..y + 1][..y] == rows[..y];
    }
    assert rows[..height] == rows;
    FlattenLength(rows, width);
    forall y: nat, x: nat | y < height && x < width
      ensures Idx(x, y, width) < |alphaMap| && alphaMap[Idx(x, y, width)] == CaptureAlpha(capture.pixels[y, x])
    {
      FlattenAt(rows, width, x, y);
    }
  }

  /** Every opacity of a capture's alpha map lies in [0, 1]. */
  lemma AlphaMapInRange(capture: Image)
    requires capture.Valid()
    ensures forall i | 0 <= i < |Flatten(CaptureAlphaRows(capture))| ::
              0.0 <= Flatten(CaptureAlphaRows(capture))[i] <= 1.0
  {
    var rows := CaptureAlphaRows(capture);
    forall i | 0 <= i < |Flatten(rows)|
      ensures 0.0 <= Flatten(rows)[i] <= 1.0
    {
      FlattenIndex(rows, capture.width, i);
    }
  }

  // ---------------------------------------------------------------------------
  // The blend equations on one channel
  // ---------------------------------------------------------------------------

  /** The forward compositing equation that put the watermark on the image. */
  function ForwardBlend(original: real, alpha: real, logo: real): real
  {
    alpha * logo + (1.0 - alpha) * original
  }

  /** For alpha in [0, 1] the forward blend lies between the original and
      the logo; it is the original at alpha 0 and the logo at alpha 1. */
  lemma ForwardBlendBetween(original: real, alpha: real, logo: real)
    requires 0.0 <= alpha <= 1.0
    ensures MinReal(original, logo) <= ForwardBlend(original, alpha, logo) <= MaxReal(original, logo)
    ensures alpha == 0.0 ==> ForwardBlend(original, alpha, logo) == original
    ensures alpha == 1.0 ==> ForwardBlend(original, alpha, logo) == logo
  {
    var d := logo - original;
    assert ForwardBlend(original, alpha, logo) == original + alpha * d;
    if d >= 0.0 {
      MulNonNegative(alpha, d);
      MulMonotoneReal(alpha, 1.0, d, d);
    } else {
      MulNonNegative(alpha, -d);
      MulMonotoneReal(alpha, 1.0, -d, -d);
    }
  }

  /** The reverse formula `(watermarked - alpha * logo) / (1 - alpha)`. */
  function ReverseBlend(watermarked: real, alpha: real, logo: real): real
    requires alpha < 1.0
  {
    (watermarked - alpha * logo) / (1.0 - alpha)
  }

  /** `f.clamp(0.0, 255.0) as u8`: the floor of the clamped value. */
  function ToByte(v: real): (c: Byte)
    ensures c as real <= Clamp(v, 0.0, 255.0) < c as real + 1.0
  {
    Clamp(v, 0.0, 255.0).Floor
  }

  /** The alpha actually used for a pixel that passed the threshold: `alpha.min(0.99)`. */
  function EffectiveAlpha(alpha: real): (a: real)
    requires alpha >= AlphaThreshold
    ensures AlphaThreshold <= a <= MaxAlpha && a <= alpha
    ensures alpha <= MaxAlpha ==> a == alpha
    ensures 1.0 - a >= 0.01
  {
    MinReal(alpha, MaxAlpha)
  }

  /** One channel of an unblended pixel: the reverse formula, clamped and
      truncated. `UnblendChannelBrackets` states what the result means. */
  function UnblendChannel(c: Byte, alpha: real, logo: real): (r: Byte)
    requires AlphaThreshold <= alpha <= MaxAlpha
  {
    ToByte(ReverseBlend(c as real, alpha, logo))
  }

  /** What an unblended channel means: the byte `r` whose forward blend is
      at most the watermarked channel while that of `r + 1` exceeds it, or
      0 or 255 when the reverse formula leaves [0, 255]. */
  lemma UnblendChannelBrackets(c: Byte, alpha: real, logo: real)
    requires AlphaThreshold <= alpha <= MaxAlpha
    ensures var v := ReverseBlend(c as real, alpha, logo);
            var r := UnblendChannel(c, alpha, logo);
            (v < 0.0 ==> r == 0) && (255.0 < v ==> r == 255) &&
            (0.0 <= v <= 255.0 ==>
               ForwardBlend(r as real, alpha, logo) <= c as real < ForwardBlend(r as real + 1.0, alpha, logo))
  {
    var v := ReverseBlend(c as real, alpha, logo);
    var r := UnblendChannel(c, alpha, logo);
    ReverseInvertsForward(0.0, c as real, alpha, logo);
    BlendIncreasing(r as real, v, alpha, logo);
    BlendIncreasing(v, r as real + 1.0, alpha, logo);
  }

  /** The forward blend is increasing in the original for alpha below 1. */
  lemma BlendIncreasing(x: real, y: real, alpha: real, logo: real)
    requires alpha < 1.0
    ensures x <= y ==> ForwardBlend(x, alpha, logo) <= ForwardBlend(y, alpha, logo)
    ensures x < y ==> ForwardBlend(x, alpha, logo) < ForwardBlend(y, alpha, logo)
  {
    if x < y {
      var k, c := 1.0 - alpha, alpha * logo;
      ScaleStrict(k, x, y);
      assert ForwardBlend(x, alpha, logo) == c + k * x;
      assert ForwardBlend(y, alpha, logo) == c + k * y;
    }
  }

  lemma ScaleStrict(k: real, x: real, y: real)
    requires 0.0 < k && x < y
    ensures k * x < k * y
  {
    MulPositive(k, y - x);
    assert k * y - k * x == k * (y - x);
  }

  /** A brighter watermarked channel never unblends to a darker one. */
  lemma UnblendMonotone(c1: Byte, c2: Byte, alpha: real, logo: real)
    requires AlphaThreshold <= alpha <= MaxAlpha && c1 <= c2
    ensures UnblendChannel(c1, alpha, logo) <= UnblendChannel(c2, alpha, logo)
  {
    var v1 := ReverseBlend(c1 as real, alpha, logo);
    var v2 := ReverseBlend(c2 as real, alpha, logo);
    ReverseInvertsForward(0.0, c1 as real, alpha, logo);
    ReverseInvertsForward(0.0, c2 as real, alpha, logo);
    BlendIncreasing(v2, v1, alpha, logo);
    assert v1 <= v2;
    var k1 := Clamp(v1, 0.0, 255.0);
    var k2 := Clamp(v2, 0.0, 255.0);
    assert k1 <= k2;
    assert k1.Floor <= k2.Floor;
  }

  /** All three channels of a pixel whose alpha passed the threshold, each
      unblended on its own with the capped alpha. */
  function UnblendPixel(p: Rgb, alpha: real, logo: real): Rgb
    requires alpha >= AlphaThreshold
  {
    var a := EffectiveAlpha(alpha);
    Rgb(UnblendChannel(p.r, a, logo), UnblendChannel(p.g, a, logo), UnblendChannel(p.b, a, logo))
  }

  /** Unblending keeps the order of a pixel's channels, so a grey pixel
      stays grey. */
  lemma UnblendPixelKeepsOrder(p: Rgb, alpha: real, logo: real)
    requires alpha >= AlphaThreshold
    ensures var q := UnblendPixel(p, alpha, logo);
            (p.r == p.g == p.b ==> q.r == q.g == q.b) &&
            (p.r <= p.g ==> q.r <= q.g) && (p.g <= p.r ==> q.g <= q.r) &&
            (p.g <= p.b ==> q.g <= q.b) && (p.b <= p.g ==> q.b <= q.g) &&
            (p.r <= p.b ==> q.r <= q.b) && (p.b <= p.r ==> q.b <= q.r)
  {
    var a := EffectiveAlpha(alpha);
    ChannelOrder(p.r, p.g, a, logo);
    ChannelOrder(p.g, p.b, a, logo);
    ChannelOrder(p.r, p.b, a, logo);
  }

  lemma ChannelOrder(c1: Byte, c2: Byte, alpha: real, logo: real)
    requires AlphaThreshold <= alpha <= MaxAlpha
    ensures c1 <= c2 ==> UnblendChannel(c1, alpha, logo) <= UnblendChannel(c2, alpha, logo)
    ensures c2 <= c1 ==> UnblendChannel(c2, alpha, logo) <= UnblendChannel(c1, alpha, logo)
  {
    if c1 <= c2 {
      UnblendMonotone(c1, c2, alpha, logo);
    }
    if c2 <= c1 {
      UnblendMonotone(c2, c1, alpha, logo);
    }
  }

  // ---------------------------------------------------------------------------
  // The region
  // ---------------------------------------------------------------------------

  /** Whether (x, y) lies in the watermark region clipped to the image. */
  predicate InClip(x: nat, y: nat, wmWidth: nat, wmHeight: nat, posX: nat, posY: nat, imgW: nat, imgH: nat)
  {
    posX <= x < ClipEnd(posX, wmWidth, imgW) && posY <= y < ClipEnd(posY, wmHeight, imgH)
  }

  /** The alpha index `dy * wm_width + dx` of every pixel of the clipped
      region is inside an alpha map of `wm_width * wm_height` entries. */
  lemma AlphaIndexInBounds(dx: nat, dy: nat, wmWidth: nat, wmHeight: nat, posX: nat, posY: nat, imgW: nat, imgH: nat)
    requires dx < ClipEnd(posX, wmWidth, imgW) - posX
    requires dy < ClipEnd(posY, wmHeight, imgH) - posY
    ensures Idx(dx, dy, wmWidth) < wmWidth * wmHeight
  {
    IdxBound(dx, dy, wmWidth, wmHeight);
  }

  /** What reverse blending leaves at (x, y), given the pixel that was there. */
  function PixelAfterRemoval(before: Rgb, x: nat, y: nat, alphaMap: seq<real>, wmWidth: nat, wmHeight: nat,
                             posX: nat, posY: nat, imgW: nat, imgH: nat, logo: real): (after: Rgb)
    requires |alphaMap| == wmWidth * wmHeight
    ensures !InClip(x, y, wmWidth, wmHeight, posX, posY, imgW, imgH) ==> after == before
  {
    if InClip(x, y, wmWidth, wmHeight, posX, posY, imgW, imgH) then
      AlphaIndexInBounds(x - posX, y - posY, wmWidth, wmHeight, posX, posY, imgW, imgH);
      var alpha := alphaMap[Idx(x - posX, y - posY, wmWidth)];
      if alpha < AlphaThreshold then before else UnblendPixel(before, alpha, logo)
    else
      before
  }

  /** `remove_watermark_alpha_blend`: rewrites, in place, every pixel of the
      clipped region whose alpha reaches the threshold; every other pixel
      keeps its value. */
  method RemoveWatermarkAlphaBlend(image: Image, alphaMap: seq<real>, wmWidth: nat, wmHeight: nat,
                                   posX: nat, posY: nat, logoValue: real)
    requires image.Valid()
    requires |alphaMap| == wmWidth * wmHeight
    modifies image.pixels
    ensures forall y: nat, x: nat | y < image.height && x < image.width ::
              image.pixels[y, x] == PixelAfterRemoval(old(image.pixels[y, x]), x, y, alphaMap, wmWidth, wmHeight,
                                                      posX, posY, image.width, image.height, logoValue)
  {
    var imgW, imgH := image.width, image.height;
    var x2 := ClipEnd(posX, wmWidth, imgW);
    var y2 := ClipEnd(posY, wmHeight, imgH);
    if posX >= x2 || posY >= y2 {
      return;
    }
    for dy := 0 to y2 - posY
      invariant forall y: nat, x: nat | y < imgH && x < imgW && y < posY + dy ::
                  image.pixels[y, x] == PixelAfterRemoval(old(image.pixels[y, x]), x, y, alphaMap, wmWidth, wmHeight,
                                                          posX, posY, imgW, imgH, logoValue)
      invariant forall y: nat, x: nat | y < imgH && x < imgW && posY + dy <= y ::
                  image.pixels[y, x] == old(image.pixels[y, x])
    {
      for dx := 0 to x2 - posX
        invariant forall y: nat, x: nat | y < imgH && x < imgW && (y < posY + dy || (y == posY + dy && x < posX + dx)) ::
                    image.pixels[y, x] == PixelAfterRemoval(old(image.pixels[y, x]), x, y, alphaMap, wmWidth, wmHeight,
                                                            posX, posY, imgW, imgH, logoValue)
        invariant forall y: nat, x: nat | y < imgH && x < imgW && (posY + dy < y || (y == posY + dy && posX + dx <= x)) ::
                    image.pixels[y, x] == old(image.pixels[y, x])
      {
        AlphaIndexInBounds(dx, dy, wmWidth, wmHeight, posX, posY, imgW, imgH);
        var alpha := alphaMap[Idx(dx, dy, wmWidth)];
        if alpha < AlphaThreshold {
          continue;
        }
        alpha := EffectiveAlpha(alpha);
        var px := image.pixels[posY + dy, posX + dx];
        var cleaned := Rgb(UnblendChannel(px.r, alpha, logoValue),
                           UnblendChannel(px.g, alpha, logoValue),
                           UnblendChannel(px.b, alpha, logoValue));
        image.pixels[posY + dy, posX + dx] := cleaned;
      }
    }
  }

  // ---------------------------------------------------------------------------
  // What the blender promises
  // ---------------------------------------------------------------------------

  /** Pixels whose alpha is below the threshold come out bit-exact. */
  lemma LowAlphaPixelUnchanged(before: Rgb, x: nat, y: nat, alphaMap: seq<real>, wmWidth: nat, wmHeight: nat,
                               posX: nat, posY: nat, imgW: nat, imgH: nat, logo: real)
    requires |alphaMap| == wmWidth * wmHeight
    requires InClip(x, y, wmWidth, wmHeight, posX, posY, imgW, imgH)
    requires Idx(x - posX, y - posY, wmWidth) < |alphaMap|
    requires alphaMap[Idx(x - posX, y - posY, wmWidth)] < AlphaThreshold
    ensures PixelAfterRemoval(before, x, y, alphaMap, wmWidth, wmHeight, posX, posY, imgW, imgH, logo) == before
  {
  }

  /** An empty clipped region leaves the whole image as it was. */
  lemma EmptyRegionChangesNothing(before: Rgb, x: nat, y: nat, alphaMap: seq<real>, wmWidth: nat, wmHeight: nat,
                                  posX: nat, posY: nat, imgW: nat, imgH: nat, logo: real)
    requires |alphaMap| == wmWidth * wmHeight
    requires posX >= ClipEnd(posX, wmWidth, imgW) || posY >= ClipEnd(posY, wmHeight, imgH)
    ensures PixelAfterRemoval(before, x, y, alphaMap, wmWidth, wmHeight, posX, posY, imgW, imgH, logo) == before
  {
  }

  /** Over the reals the reverse formula and the forward blend are inverse
      to each other, for every alpha the blender can use (below 1). */
  lemma ReverseInvertsForward(original: real, watermarked: real, alpha: real, logo: real)
    requires alpha < 1.0
    ensures ReverseBlend(ForwardBlend(original, alpha, logo), alpha, logo) == original
    ensures ForwardBlend(ReverseBlend(watermarked, alpha, logo), alpha, logo) == watermarked
  {
    var r := ReverseBlend(ForwardBlend(original, alpha, logo), alpha, logo);
    assert (1.0 - alpha) * r == (1.0 - alpha) * original;
    MulCancel(1.0 - alpha, r, original);
    var o := ReverseBlend(watermarked, alpha, logo);
    assert (1.0 - alpha) * o == watermarked - alpha * logo;
  }

  lemma MulCancel(k: real, a: real, b: real)
    requires 0.0 < k && k * a == k * b
    ensures a == b
  {
    if a > b {
      MulPositive(k, a - b);
    } else if a < b {
      MulPositive(k, b - a);
    }
  }

  /** Dividing an amount below 1 by at least one half gives a quotient in [0, 2). */
  lemma DivisionBounds(e: real, d: real)
    requires 0.0 <= e < 1.0 && 0.5 <= d
    ensures 0.0 <= e / d < 2.0
  {
    var q := e / d;
    assert q * d == e;
    if q < 0.0 {
      MulNegative(d, q);
    } else if q >= 2.0 {
      MulMonotoneReal(2.0, q, 0.5, d);
    }
  }

  /** Blending a white logo (255) over an 8-bit channel with alpha at most
      0.5, storing the result as u8, then unblending, gives back the channel
      up to 2 below: the tolerance the round-trip test allows. */
  lemma ChannelRoundTrip(o: Byte, alpha: real)
    requires AlphaThreshold <= alpha <= 0.5
    ensures var restored := UnblendChannel(ToByte(ForwardBlend(o as real, alpha, 255.0)), alpha, 255.0);
            o - 2 <= restored <= o
  {
    var w := ToByte(ForwardBlend(o as real, alpha, 255.0));
    var e := StoredRoundingError(o, alpha);
    ReverseOfStored(o, alpha, w, e);
    FloorWithinTwo(o, ReverseBlend(w as real, alpha, 255.0));
  }

  /** Storing the blended channel as u8 loses less than 1 and keeps the
      relation of the blend equation up to that loss. */
  lemma StoredRoundingError(o: Byte, alpha: real) returns (e: real)
    requires 0.0 <= alpha <= 0.5
    ensures var w := ToByte(ForwardBlend(o as real, alpha, 255.0));
            0.0 <= e < 1.0 && w as real - alpha * 255.0 == (1.0 - alpha) * o as real - e
  {
    var f := ForwardBlend(o as real, alpha, 255.0);
    assert f == alpha * 255.0 + (1.0 - alpha) * o as real;
    ForwardBlendBetween(o as real, alpha, 255.0);
    assert 0.0 <= f <= 255.0;
    assert Clamp(f, 0.0, 255.0) == f;
    e := f - ToByte(f) as real;
  }

  /** Unblending a stored value that lost `e < 1` gives back the channel
      less at most `e / (1 - alpha) < 2`. */
  lemma ReverseOfStored(o: Byte, alpha: real, w: Byte, e: real)
    requires 0.0 <= alpha <= 0.5 && 0.0 <= e < 1.0
    requires w as real - alpha * 255.0 == (1.0 - alpha) * o as real - e
    ensures o as real - 2.0 < ReverseBlend(w as real, alpha, 255.0) <= o as real
  {
    assert ReverseBlend(w as real, alpha, 255.0) == ((1.0 - alpha) * o as real - e) / (1.0 - alpha);
    QuotientOfDifference(1.0 - alpha, o as real, e);
    var d := e / (1.0 - alpha);
    assert ReverseBlend(w as real, alpha, 255.0) == o as real - d;
    DivisionBounds(e, 1.0 - alpha);
  }


  /** A value in (o - 2, o], clamped and floored, lands in [o - 2, o]. */
  lemma FloorWithinTwo(o: Byte, v: real)
    requires o as real - 2.0 < v <= o as real
    ensures o - 2 <= ToByte(v) <= o
  {
  }

  lemma QuotientOfDifference(d: real, x: real, e: real)
    requires 0.0 < d
    ensures (d * x - e) / d == x - e / d
  {
    var q := (d * x - e) / d;
    assert q * d == d * x - e;
    assert (e / d) * d == e;
    assert (x - e / d) * d == d * x - e;
    MulCancel(d, q, x - e / d);
  }

  lemma MulNegative(a: real, b: real)
    requires 0.0 < a && b < 0.0
    ensures a * b < 0.0
  {
  }

  lemma MulMonotoneReal(a: real, a': real, b: real, b': real)
    requires 0.0 <= a <= a' && 0.0 <= b <= b'
    ensures a * b <= a' * b'
  {
    assert a * b <= a' * b;
    assert a' * b <= a' * b';
  }

  /** All three channels of a pixel survive the forward/reverse round trip within 2. */
  lemma PixelRoundTrip(p: Rgb, alpha: real)
    requires AlphaThreshold <= alpha <= 0.5
    ensures var w := Rgb(ToByte(ForwardBlend(p.r as real, alpha, 255.0)),
                         ToByte(ForwardBlend(p.g as real, alpha, 255.0)),
                         ToByte(ForwardBlend(p.b as real, alpha, 255.0)));
            var q := UnblendPixel(w, alpha, 255.0);
            p.r - 2 <= q.r <= p.r && p.g - 2 <= q.g <= p.g && p.b - 2 <= q.b <= p.b
  {
    ChannelRoundTrip(p.r, alpha);
    ChannelRoundTrip(p.g, alpha);
    ChannelRoundTrip(p.b, alpha);
  }

  /** The tolerance of 2 is specific to small alphas: at alpha 0.9 a channel
      of 100 comes back as 95. */
  lemma HighAlphaExceedsTolerance()
    ensures UnblendChannel(ToByte(ForwardBlend(100.0, 0.9, 255.0)), 0.9, 255.0) == 95
  {
    assert ForwardBlend(100.0, 0.9, 255.0) == 239.5;
    assert ToByte(239.5) == 239;
    assert ReverseBlend(239.0, 0.9, 255.0) == 95.0;
  }
}
