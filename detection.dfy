/** The three-stage detector of `src/detection.rs`: spatial normalised
    cross-correlation (NCC) between the region's brightness and the alpha
    map, NCC between their Sobel gradient magnitudes, and a comparison of
    the region's texture with the band just above it, combined into one
    weighted confidence. Scores are real numbers; the square root is the
    parameter `sqrt`, and facts that depend on what it computes assume
    `IsSqrt(sqrt)`. */
module Detection {
  import opened Numerics
  import opened Raster

  const SpatialWeight: real := 0.5
  const GradientWeight: real := 0.3
  const VarianceWeight: real := 0.2
  /** A spatial score below min(user threshold, this) stops detection early. */
  const SpatialCircuitBreaker: real := 0.25
  /** Confidence at or above this means "detected". */
  const DetectionThreshold: real := 0.35
  /** The reference band above the watermark must be taller than this. */
  const MinRefHeight: nat := 8
  /** The reference band must be at least this textured (on the [0, 1] scale). */
  const MinRefStdDev: real := 5.0 / 255.0
  /** NCC denominators below this count as degenerate. */
  const NccEpsilon: real := 0.0000000001

  datatype DetectionResult = DetectionResult(
    detected: bool,
    confidence: real,
    spatialScore: real,
    gradientScore: real,
    varianceScore: real)

  /** `DetectionResult::default()` */
  const NotDetected := DetectionResult(false, 0.0, 0.0, 0.0, 0.0)

  // ---------------------------------------------------------------------------
  // Grayscale extraction
  // ---------------------------------------------------------------------------

  /** ITU-R BT.601 luma of a pixel, scaled to [0, 1]. */
  function Luma(p: Rgb): (l: real)
    ensures 0.0 <= l <= 1.0
  {
    (0.299 * (p.r as real) + 0.587 * (p.g as real) + 0.114 * (p.b as real)) / 255.0
  }

  /** The weights sum to one, so a grey pixel keeps its level. */
  lemma LumaOfGrey(p: Rgb)
    requires p.r == p.g == p.b
    ensures Luma(p) == (p.r as real) / 255.0
  {
  }

  /** Brightness of the `w` by `h` region whose top-left pixel is (x0, y0), row by row. */
  function GrayRows(pic: Picture, x0: nat, y0: nat, w: nat, h: nat): (rows: seq<seq<real>>)
    requires pic.Wellformed() && x0 + w <= pic.width && y0 + h <= pic.height
    ensures |rows| == h && Rectangular(rows, w)
  {
    seq(h, dy requires 0 <= dy < h =>
      seq(w, dx requires 0 <= dx < w =>
        Luma(pic.rows[y0 + dy][x0 + dx])))
  }

  /** `region_to_grayscale`: the region's brightness in row-major order. */
  method RegionToGrayscale(img: Image, x0: nat, y0: nat, w: nat, h: nat) returns (gray: seq<real>)
    requires img.Valid() && x0 + w <= img.width && y0 + h <= img.height
    ensures gray == GrayRegion(img.Snapshot(), x0, y0, w, h)
  {
    ghost var rows := GrayRows(img.Snapshot(), x0, y0, w, h);
    gray := [];
    for dy := 0 to h
      invariant gray == Flatten(rows[..dy])
    {
      for dx := 0 to w
        invariant gray == Flatten(rows[..dy]) + rows[dy][..dx]
      {
        gray := gray + [Luma(img.pixels[y0 + dy, x0 + dx])];
        assert rows[dy][..dx + 1] == rows[dy][..dx] + [rows[dy][dx]];
      }
      assert rows[..dy + 1][..dy] == rows[..dy];
    }
    assert rows[..h] == rows;
  }

  /** The top-left `w` by `h` corner of a `wmWidth`-wide alpha map, row by row. */
  function AlphaRows(alphaMap: seq<real>, wmWidth: nat, wmHeight: nat, w: nat, h: nat): (rows: seq<seq<real>>)
    requires |alphaMap| == wmWidth * wmHeight && w <= wmWidth && h <= wmHeight
    ensures |rows| == h && Rectangular(rows, w)
  {
    seq(h, dy requires 0 <= dy < h =>
      seq(w, dx requires 0 <= dx < w =>
        IdxBound(dx, dy, wmWidth, wmHeight);
        alphaMap[Idx(dx, dy, wmWidth)]))
  }

  /** The alpha sub-region loop of `detect_watermark`, used when the region
      is clipped: entry (dx, dy) of the `w` by `h` result is entry
      `dy * wm_width + dx` of the map. */
  method AlphaSubRegion(alphaMap: seq<real>, wmWidth: nat, wmHeight: nat, w: nat, h: nat) returns (sub: seq<real>)
    requires |alphaMap| == wmWidth * wmHeight && w <= wmWidth && h <= wmHeight
    ensures sub == Flatten(AlphaRows(alphaMap, wmWidth, wmHeight, w, h))
    ensures |sub| == w * h
    ensures forall dy: nat, dx: nat | dy < h && dx < w ::
              Idx(dx, dy, w) < |sub| && Idx(dx, dy, wmWidth) < |alphaMap| &&
              sub[Idx(dx, dy, w)] == alphaMap[Idx(dx, dy, wmWidth)]
  {
    var rows := AlphaRows(alphaMap, wmWidth, wmHeight, w, h);
    sub := [];
    for dy := 0 to h
      invariant sub == Flatten(rows[..dy])
    {
      for dx := 0 to w
        invariant sub == Flatten(rows[..dy]) + rows[dy][..dx]
      {
        IdxBound(dx, dy, wmWidth, wmHeight);
        sub := sub + [alphaMap[Idx(dx, dy, wmWidth)]];
        assert rows[dy][..dx + 1] == rows[dy][..dx] + [rows[dy][dx]];
      }
      assert rows[..dy + 1][..dy] == rows[..dy];
    }
    assert rows[..h] == rows;
    FlattenLength(rows, w);
    forall dy: nat, dx: nat | dy < h && dx < w
      ensures Idx(dx, dy, w) < |sub| && Idx(dx, dy, wmWidth) < |alphaMap| &&
              sub[Idx(dx, dy, w)] == alphaMap[Idx(dx, dy, wmWidth)]
    {
      FlattenAt(rows, w, dx, dy);
      IdxBound(dx, dy, wmWidth, wmHeight);
    }
  }

  /** Unclipped, the sub-region is the whole map, so copying the map in that
      case agrees with the index arithmetic. */
  lemma FullSubRegionIsMap(alphaMap: seq<real>, wmWidth: nat, wmHeight: nat)
    requires |alphaMap| == wmWidth * wmHeight
    ensures Flatten(AlphaRows(alphaMap, wmWidth, wmHeight, wmWidth, wmHeight)) == alphaMap
  {
    var rows := AlphaRows(alphaMap, wmWidth, wmHeight, wmWidth, wmHeight);
    FlattenLength(rows, wmWidth);
    assert |Flatten(rows)| == |alphaMap|;
    forall k | 0 <= k < |alphaMap|
      ensures Flatten(rows)[k] == alphaMap[k]
    {
      FlattenIndex(rows, wmWidth, k);
      IdxOfDivMod(k, wmWidth, wmHeight);
    }
  }

  // ---------------------------------------------------------------------------
  // Normalised cross-correlation and standard deviation
  // ---------------------------------------------------------------------------

  /** `iter().sum()`, added from the front. */
  function Sum(s: seq<real>): real
  {
    if |s| == 0 then 0.0 else Sum(s[..|s| - 1]) + s[|s| - 1]
  }

  function Mean(s: seq<real>): real
    requires |s| > 0
  {
    Sum(s) / (|s| as real)
  }

  /** Sum of the products of the deviations of `a` from `ma` and of `b` from `mb`. */
  function CrossDev(a: seq<real>, b: seq<real>, ma: real, mb: real): real
    requires |a| == |b|
  {
    if |a| == 0 then 0.0
    else CrossDev(a[..|a| - 1], b[..|b| - 1], ma, mb) + DevProduct(a[|a| - 1], ma, b[|b| - 1], mb)
  }

  /** The product of the deviations of `x` from `mx` and of `y` from `my`. */
  function DevProduct(x: real, mx: real, y: real, my: real): real
  {
    (x - mx) * (y - my)
  }

  /** The last step of `ncc`: the cross term over the root of the product
      of the two squared-deviation sums, or 0 when that root is below
      `NccEpsilon`. */
  function Correlation(num: real, devA: real, devB: real, sqrt: real -> real): (r: real)
    ensures sqrt(devA * devB) < NccEpsilon ==> r == 0.0
  {
    var denom := sqrt(devA * devB);
    if denom < NccEpsilon then 0.0 else num / denom
  }

  /** What `ncc` computes: 0 for empty input, the correlation coefficient
      of the two sequences otherwise. */
  function Ncc(a: seq<real>, b: seq<real>, sqrt: real -> real): real
    requires |a| == |b|
  {
    if |a| == 0 then 0.0
    else
      var ma := Mean(a);
      var mb := Mean(b);
      Correlation(CrossDev(a, b, ma, mb), CrossDev(a, a, ma, ma), CrossDev(b, b, mb, mb), sqrt)
  }

  /** `ncc`: 0 for empty input; otherwise the two means, one pass for the
      three sums, and the final quotient. */
  method ComputeNcc(a: seq<real>, b: seq<real>, sqrt: real -> real) returns (score: real)
    requires |a| == |b|
    ensures score == Ncc(a, b, sqrt)
  {
    if |a| == 0 {
      return 0.0;
    }
    var meanA := Mean(a);
    var meanB := Mean(b);
    var numerator, denomA, denomB := DeviationSums(a, b, meanA, meanB);
    score := Correlation(numerator, denomA, denomB, sqrt);
  }

  /** The accumulation loop of `ncc`: one pass over both slices summing the
      products of the deviations and the two sums of squared deviations. */
  method DeviationSums(a: seq<real>, b: seq<real>, meanA: real, meanB: real)
    returns (numerator: real, denomA: real, denomB: real)
    requires |a| == |b|
    ensures numerator == CrossDev(a, b, meanA, meanB)
    ensures denomA == CrossDev(a, a, meanA, meanA) && denomB == CrossDev(b, b, meanB, meanB)
  {
    numerator, denomA, denomB := 0.0, 0.0, 0.0;
    for i := 0 to |a|
      invariant numerator == CrossDev(a[..i], b[..i], meanA, meanB)
      invariant denomA == CrossDev(a[..i], a[..i], meanA, meanA)
      invariant denomB == CrossDev(b[..i], b[..i], meanB, meanB)
    {
      CrossDevSnoc(a, b, meanA, meanB, i);
      CrossDevSnoc(a, a, meanA, meanA, i);
      CrossDevSnoc(b, b, meanB, meanB, i);
      numerator := numerator + DevProduct(a[i], meanA, b[i], meanB);
      denomA := denomA + DevProduct(a[i], meanA, a[i], meanA);
      denomB := denomB + DevProduct(b[i], meanB, b[i], meanB);
    }
    assert a[..|a|] == a && b[..|b|] == b;
  }

  /** One more element extends the sum by one product. */
  lemma CrossDevSnoc(a: seq<real>, b: seq<real>, ma: real, mb: real, i: nat)
    requires i < |a| == |b|
    ensures CrossDev(a[..i + 1], b[..i + 1], ma, mb) == CrossDev(a[..i], b[..i], ma, mb) + DevProduct(a[i], ma, b[i], mb)
  {
    assert a[..i + 1][..i] == a[..i] && b[..i + 1][..i] == b[..i];
    assert a[..i + 1][i] == a[i] && b[..i + 1][i] == b[i];
  }

  /** The mean squared deviation of a non-empty slice. */
  function Variance(s: seq<real>): real
    requires |s| > 0
  {
    CrossDev(s, s, Mean(s), Mean(s)) / (|s| as real)
  }

  /** What `stddev` computes: 0 for empty input, otherwise the square root of
      the variance. With a genuine square root it is the non-negative number
      whose square is that variance. */
  function StdDev(s: seq<real>, sqrt: real -> real): (r: real)
    ensures |s| == 0 ==> r == 0.0
    ensures IsSqrt(sqrt) && |s| > 0 ==> 0.0 <= r && r * r == Variance(s)
  {
    RootOfVariance(s, sqrt);
    if |s| == 0 then 0.0 else sqrt(Variance(s))
  }

  lemma RootOfVariance(s: seq<real>, sqrt: real -> real)
    ensures IsSqrt(sqrt) && |s| > 0 ==> 0.0 <= sqrt(Variance(s)) && sqrt(Variance(s)) * sqrt(Variance(s)) == Variance(s)
  {
    if IsSqrt(sqrt) && |s| > 0 {
      var m := Mean(s);
      SquaredDevNonNegative(s, m);
      RootOfQuotient(sqrt, CrossDev(s, s, m, m), |s| as real);
    }
  }

  lemma RootOfQuotient(sqrt: real -> real, d: real, n: real)
    requires IsSqrt(sqrt) && 0.0 <= d && 0.0 < n
    ensures 0.0 <= sqrt(d / n) && sqrt(d / n) * sqrt(d / n) == d / n
  {
    assert 0.0 <= d / n;
    SqrtFacts(sqrt, d / n);
  }

  lemma {:induction false} SumConstant(s: seq<real>, c: real)
    requires forall i | 0 <= i < |s| :: s[i] == c
    ensures Sum(s) == (|s| as real) * c
  {
    if |s| > 0 {
      SumConstant(s[..|s| - 1], c);
    }
  }

  /** The mean of a constant sequence is that constant. */
  lemma MeanConstant(s: seq<real>, c: real)
    requires |s| > 0 && forall i | 0 <= i < |s| :: s[i] == c
    ensures Mean(s) == c
  {
    SumConstant(s, c);
  }

  lemma {:induction false} SumComplement(a: seq<real>, b: seq<real>, k: real)
    requires |a| == |b| && forall i | 0 <= i < |a| :: b[i] == k - a[i]
    ensures Sum(b) == (|a| as real) * k - Sum(a)
  {
    if |a| > 0 {
      SumComplement(a[..|a| - 1], b[..|b| - 1], k);
    }
  }

  /** Deviations that are all zero contribute nothing. */
  lemma {:induction false} CrossDevOfFlat(a: seq<real>, b: seq<real>, ma: real, mb: real)
    requires |a| == |b| && forall i | 0 <= i < |a| :: a[i] == ma
    ensures CrossDev(a, b, ma, mb) == 0.0 && CrossDev(b, a, mb, ma) == 0.0
  {
    if |a| > 0 {
      CrossDevOfFlat(a[..|a| - 1], b[..|b| - 1], ma, mb);
    }
  }

  /** Mirrored deviations flip the sign of the cross term and keep the squares. */
  lemma {:induction false} CrossDevMirrored(a: seq<real>, b: seq<real>, ma: real, mb: real)
    requires |a| == |b| && forall i | 0 <= i < |a| :: b[i] - mb == -(a[i] - ma)
    ensures CrossDev(a, b, ma, mb) == -CrossDev(a, a, ma, ma)
    ensures CrossDev(b, b, mb, mb) == CrossDev(a, a, ma, ma)
  {
    if |a| > 0 {
      CrossDevMirrored(a[..|a| - 1], b[..|b| - 1], ma, mb);
    }
  }

  lemma {:induction false} SquaredDevNonNegative(a: seq<real>, ma: real)
    ensures CrossDev(a, a, ma, ma) >= 0.0
  {
    if |a| > 0 {
      SquaredDevNonNegative(a[..|a| - 1], ma);
      var d := a[|a| - 1] - ma;
      if d != 0.0 {
        SquarePositive(d);
      }
    }
  }

  /** The Cauchy-Schwarz relation between a cross term `s` and the two
      sums of squares `p` and `q` it is bounded by. */
  ghost predicate Dominated(s: real, p: real, q: real)
  {
    0.0 <= p && 0.0 <= q && s * s <= p * q
  }

  lemma SquarePositive(v: real)
    requires v != 0.0
    ensures v * v > 0.0
  {
    if v < 0.0 {
      MulPositive(-v, -v);
    } else {
      MulPositive(v, v);
    }
  }

  lemma MulNonNegativeFactor(a: real, v: real)
    requires 0.0 < a && 0.0 <= a * v
    ensures 0.0 <= v
  {
    if v < 0.0 {
      MulPositive(a, -v);
    }
  }

  /** 2*s*x*y <= p*y*y + q*x*x whenever s*s <= p*q (the AM-GM half of the step). */
  lemma CrossTermBound(s: real, p: real, q: real, x: real, y: real)
    requires Dominated(s, p, q)
    ensures 2.0 * s * x * y <= p * (y * y) + q * (x * x)
  {
    if p == 0.0 {
      if s != 0.0 {
        SquarePositive(s);
      }
      MulNonNegative(q, x * x);
    } else {
      var t := p * y - s * x;
      var e := p * (y * y) + q * (x * x) - 2.0 * s * x * y;
      assert p * e == t * t + (p * q - s * s) * (x * x);
      MulNonNegative(p * q - s * s, x * x);
      MulNonNegativeFactor(p, e);
    }
  }

  /** The inductive step of Cauchy-Schwarz: adding x*y to the cross term and
      x*x, y*y to the sums of squares keeps the relation. */
  lemma CauchySchwarzStep(s: real, p: real, q: real, x: real, y: real, s': real, p': real, q': real)
    requires Dominated(s, p, q)
    requires s' == s + x * y && p' == p + x * x && q' == q + y * y
    ensures Dominated(s', p', q')
  {
    CrossTermBound(s, p, q, x, y);
    var lhs := (s + x * y) * (s + x * y);
    var rhs := (p + x * x) * (q + y * y);
    assert lhs == s * s + 2.0 * s * x * y + (x * x) * (y * y);
    assert rhs == p * q + p * (y * y) + q * (x * x) + (x * x) * (y * y);
    if x != 0.0 {
      SquarePositive(x);
    }
    if y != 0.0 {
      SquarePositive(y);
    }
  }

  /** Cauchy-Schwarz for deviations: the squared cross term is at most the
      product of the two sums of squared deviations. */
  lemma {:induction false} CauchySchwarz(a: seq<real>, b: seq<real>, ma: real, mb: real)
    requires |a| == |b|
    ensures Dominated(CrossDev(a, b, ma, mb), CrossDev(a, a, ma, ma), CrossDev(b, b, mb, mb))
  {
    if |a| > 0 {
      var n := |a|;
      var a', b' := a[..n - 1], b[..n - 1];
      assert a[..n] == a && b[..n] == b;
      CrossDevSnoc(a, b, ma, mb, n - 1);
      CrossDevSnoc(a, a, ma, ma, n - 1);
      CrossDevSnoc(b, b, mb, mb, n - 1);
      CauchySchwarz(a', b', ma, mb);
      DeviationStep(CrossDev(a', b', ma, mb), CrossDev(a', a', ma, ma), CrossDev(b', b', mb, mb), a[n - 1], ma, b[n - 1], mb);
    }
  }

  /** `CauchySchwarzStep` for one more pair of deviations. */
  lemma DeviationStep(s: real, p: real, q: real, u: real, mu: real, v: real, mv: real)
    requires Dominated(s, p, q)
    ensures Dominated(s + DevProduct(u, mu, v, mv), p + DevProduct(u, mu, u, mu), q + DevProduct(v, mv, v, mv))
  {
    CauchySchwarzStep(s, p, q, u - mu, v - mv,
                      s + DevProduct(u, mu, v, mv), p + DevProduct(u, mu, u, mu), q + DevProduct(v, mv, v, mv));
  }

  /** The final quotient of `ncc` lies in [-1, 1] when its inputs obey Cauchy-Schwarz. */
  lemma CorrelationBounded(num: real, devA: real, devB: real, sqrt: real -> real)
    requires IsSqrt(sqrt) && Dominated(num, devA, devB)
    ensures -1.0 <= Correlation(num, devA, devB, sqrt) <= 1.0
  {
    var denom := sqrt(devA * devB);
    if denom >= NccEpsilon {
      MulNonNegative(devA, devB);
      SqrtBoundsAbs(sqrt, num, devA * devB);
      QuotientBounded(num, denom);
    }
  }

  lemma QuotientBounded(num: real, denom: real)
    requires 0.0 < denom && -denom <= num <= denom
    ensures -1.0 <= num / denom <= 1.0
  {
    var q := num / denom;
    assert q * denom == num;
  }

  /** The score `ncc` returns is a correlation coefficient: it lies in [-1, 1]. */
  lemma NccBounded(a: seq<real>, b: seq<real>, sqrt: real -> real)
    requires |a| == |b| && IsSqrt(sqrt)
    ensures -1.0 <= Ncc(a, b, sqrt) <= 1.0
  {
    if |a| > 0 {
      var ma, mb := Mean(a), Mean(b);
      CauchySchwarz(a, b, ma, mb);
      CorrelationBounded(CrossDev(a, b, ma, mb), CrossDev(a, a, ma, ma), CrossDev(b, b, mb, mb), sqrt);
    }
  }

  /** `ncc` is 0 when either input is constant: its denominator vanishes. */
  lemma NccOfConstant(a: seq<real>, b: seq<real>, c: real, sqrt: real -> real)
    requires |a| == |b| && IsSqrt(sqrt)
    requires (forall i | 0 <= i < |a| :: a[i] == c) || (forall i | 0 <= i < |b| :: b[i] == c)
    ensures Ncc(a, b, sqrt) == 0.0
  {
    if |a| > 0 {
      var ma, mb := Mean(a), Mean(b);
      if forall i | 0 <= i < |a| :: a[i] == c {
        MeanConstant(a, c);
        CrossDevOfFlat(a, a, ma, ma);
      } else {
        MeanConstant(b, c);
        CrossDevOfFlat(b, b, mb, mb);
      }
      SqrtZero(sqrt);
    }
  }

  /** A sum of squares `d` correlated with itself gives 1 (0 when `d` is degenerate). */
  lemma CorrelationOfSelf(d: real, sqrt: real -> real)
    requires IsSqrt(sqrt) && 0.0 <= d
    ensures d >= NccEpsilon ==> Correlation(d, d, d, sqrt) == 1.0
    ensures d < NccEpsilon ==> Correlation(d, d, d, sqrt) == 0.0
    ensures Correlation(-d, d, d, sqrt) == -Correlation(d, d, d, sqrt)
  {
    SqrtOfSquare(sqrt, d);
    assert sqrt(d * d) == d;
    if d >= NccEpsilon {
      assert d / d == 1.0;
      assert Correlation(d, d, d, sqrt) == d / d;
    }
  }

  /** A signal correlates perfectly with itself, unless its squared
      deviations sum to less than the epsilon, where `ncc` reports 0. */
  lemma NccSelf(a: seq<real>, sqrt: real -> real)
    requires IsSqrt(sqrt) && |a| > 0
    ensures CrossDev(a, a, Mean(a), Mean(a)) >= NccEpsilon ==> Ncc(a, a, sqrt) == 1.0
    ensures CrossDev(a, a, Mean(a), Mean(a)) < NccEpsilon ==> Ncc(a, a, sqrt) == 0.0
  {
    SquaredDevNonNegative(a, Mean(a));
    CorrelationOfSelf(CrossDev(a, a, Mean(a), Mean(a)), sqrt);
  }

  lemma MeanComplement(a: seq<real>, b: seq<real>, k: real)
    requires |a| == |b| > 0 && forall i | 0 <= i < |a| :: b[i] == k - a[i]
    ensures Mean(b) == k - Mean(a)
  {
    var n := |a| as real;
    SumComplement(a, b, k);
    var m := Sum(a) / n;
    assert Sum(a) == m * n;
    assert Sum(b) == (k - m) * n;
  }

  /** A signal correlates perfectly negatively with its complement `k - a`
      (the tests use k = 1), under the same proviso as `NccSelf`. */
  lemma NccComplement(a: seq<real>, b: seq<real>, k: real, sqrt: real -> real)
    requires IsSqrt(sqrt) && |a| == |b| > 0
    requires forall i | 0 <= i < |a| :: b[i] == k - a[i]
    ensures CrossDev(a, a, Mean(a), Mean(a)) >= NccEpsilon ==> Ncc(a, b, sqrt) == -1.0
    ensures CrossDev(a, a, Mean(a), Mean(a)) < NccEpsilon ==> Ncc(a, b, sqrt) == 0.0
  {
    var ma := Mean(a);
    MeanComplement(a, b, k);
    CrossDevMirrored(a, b, ma, Mean(b));
    SquaredDevNonNegative(a, ma);
    CorrelationOfSelf(CrossDev(a, a, ma, ma), sqrt);
  }

  /** The standard deviation is never negative. */
  lemma StdDevNonNegative(s: seq<real>, sqrt: real -> real)
    requires IsSqrt(sqrt)
    ensures StdDev(s, sqrt) >= 0.0
  {
    if |s| > 0 {
      SquaredDevNonNegative(s, Mean(s));
      SqrtFacts(sqrt, CrossDev(s, s, Mean(s), Mean(s)) / (|s| as real));
    }
  }

  /** A constant sequence has standard deviation 0. */
  lemma StdDevConstant(s: seq<real>, c: real, sqrt: real -> real)
    requires IsSqrt(sqrt) && forall i | 0 <= i < |s| :: s[i] == c
    ensures StdDev(s, sqrt) == 0.0
  {
    if |s| > 0 {
      MeanConstant(s, c);
      CrossDevOfFlat(s, s, c, c);
      SqrtZero(sqrt);
    }
  }

  /** The standard deviation of 1, 2, 3, 4, 5 is the square root of 2. */
  lemma StdDevOneToFive(sqrt: real -> real)
    ensures StdDev([1.0, 2.0, 3.0, 4.0, 5.0], sqrt) == sqrt(2.0)
  {
    var s := [1.0, 2.0, 3.0, 4.0, 5.0];
    assert s[..4] == [1.0, 2.0, 3.0, 4.0];
    assert s[..4][..3] == [1.0, 2.0, 3.0];
    assert s[..4][..3][..2] == [1.0, 2.0];
    assert s[..4][..3][..2][..1] == [1.0];
    assert Sum([1.0]) == 1.0;
    assert Sum([1.0, 2.0]) == 3.0;
    assert Sum([1.0, 2.0, 3.0]) == 6.0;
    assert Sum([1.0, 2.0, 3.0, 4.0]) == 10.0;
    assert Sum(s) == 15.0;
    assert CrossDev([1.0], [1.0], 3.0, 3.0) == 4.0;
    assert CrossDev([1.0, 2.0], [1.0, 2.0], 3.0, 3.0) == 5.0;
    assert CrossDev([1.0, 2.0, 3.0], [1.0, 2.0, 3.0], 3.0, 3.0) == 5.0;
    assert CrossDev([1.0, 2.0, 3.0, 4.0], [1.0, 2.0, 3.0, 4.0], 3.0, 3.0) == 6.0;
    assert CrossDev(s, s, 3.0, 3.0) == 10.0;
  }

  // ---------------------------------------------------------------------------
  // Sobel gradient magnitude
  // ---------------------------------------------------------------------------

  /** Value at column x, row y of a `w` by `h` row-major buffer. */
  function Cell(data: seq<real>, w: nat, h: nat, x: nat, y: nat): real
    requires |data| == w * h && x < w && y < h
  {
    IdxBound(x, y, w, h);
    data[Idx(x, y, w)]
  }

  /** Whether (x, y) has all eight neighbours inside the buffer. */
  predicate Interior(w: nat, h: nat, x: nat, y: nat)
  {
    1 <= x && x + 1 < w && 1 <= y && y + 1 < h
  }

  /** Horizontal 3x3 Sobel kernel at an interior cell. */
  function SobelX(data: seq<real>, w: nat, h: nat, x: nat, y: nat): real
    requires |data| == w * h && Interior(w, h, x, y)
  {
    - Cell(data, w, h, x - 1, y - 1) + Cell(data, w, h, x + 1, y - 1)
    - 2.0 * Cell(data, w, h, x - 1, y) + 2.0 * Cell(data, w, h, x + 1, y)
    - Cell(data, w, h, x - 1, y + 1) + Cell(data, w, h, x + 1, y + 1)
  }

  /** Vertical 3x3 Sobel kernel at an interior cell. */
  function SobelY(data: seq<real>, w: nat, h: nat, x: nat, y: nat): real
    requires |data| == w * h && Interior(w, h, x, y)
  {
    - Cell(data, w, h, x - 1, y - 1) - 2.0 * Cell(data, w, h, x, y - 1) - Cell(data, w, h, x + 1, y - 1)
    + Cell(data, w, h, x - 1, y + 1) + 2.0 * Cell(data, w, h, x, y + 1) + Cell(data, w, h, x + 1, y + 1)
  }

  /** Length of the gradient vector (gx, gy). */
  function Magnitude(gx: real, gy: real, sqrt: real -> real): real
  {
    sqrt(gx * gx + gy * gy)
  }

  /** The gradient magnitude `sobel_magnitude` stores for cell (x, y): 0 on the border. */
  function SobelAt(data: seq<real>, w: nat, h: nat, x: nat, y: nat, sqrt: real -> real): (g: real)
    requires |data| == w * h && x < w && y < h
    ensures !Interior(w, h, x, y) ==> g == 0.0
  {
    if Interior(w, h, x, y) then Magnitude(SobelX(data, w, h, x, y), SobelY(data, w, h, x, y), sqrt)
    else 0.0
  }

  function SobelRows(data: seq<real>, w: nat, h: nat, sqrt: real -> real): (rows: seq<seq<real>>)
    requires |data| == w * h
    ensures |rows| == h && Rectangular(rows, w)
  {
    seq(h, y requires 0 <= y < h => seq(w, x requires 0 <= x < w => SobelAt(data, w, h, x, y, sqrt)))
  }

  /** What `sobel_magnitude` returns: the gradient magnitude of every cell, row-major. */
  function Sobel(data: seq<real>, w: nat, h: nat, sqrt: real -> real): (g: seq<real>)
    requires |data| == w * h
    ensures |g| == w * h
  {
    FlattenLength(SobelRows(data, w, h, sqrt), w);
    Flatten(SobelRows(data, w, h, sqrt))
  }

  /** `sobel_magnitude`: a zeroed buffer whose interior cells are then
      overwritten one by one in row-major order. The source subtracts 1 from
      the height, and from the width once an interior row exists, so it
      needs `h >= 1` and, when `h > 2`, `w >= 1`. */
  method SobelMagnitude(data: seq<real>, w: nat, h: nat, sqrt: real -> real) returns (result: seq<real>)
    requires |data| == w * h && 1 <= h && (h <= 2 || 1 <= w)
    ensures result == Sobel(data, w, h, sqrt)
  {
    ghost var rows := SobelRows(data, w, h, sqrt);
    ghost var s := Sobel(data, w, h, sqrt);
    FlattenLength(rows, w);
    var buf := new real[w * h](_ => 0.0);
    assert |s| == buf.Length;
    SobelZeroBetween(data, w, h, sqrt, 0, 0);
    var y := 1;
    while y < h - 1
      invariant 1 <= y && (y <= h - 1 || h == 1)
      invariant forall k | 0 <= k < buf.Length :: buf[k] == (if k < Idx(1, y, w) then s[k] else 0.0)
    {
      var x := 1;
      while x < w - 1
        invariant 1 <= x && (x <= w - 1 || x == 1)
        invariant forall k | 0 <= k < buf.Length :: buf[k] == (if k < Idx(x, y, w) then s[k] else 0.0)
      {
        var gx := SobelX(data, w, h, x, y);
        var gy := SobelY(data, w, h, x, y);
        IdxBound(x, y, w, h);
        FlattenAt(rows, w, x, y);
        buf[Idx(x, y, w)] := Magnitude(gx, gy, sqrt);
        x := x + 1;
      }
      SobelZeroBetween(data, w, h, sqrt, x, y);
      assert Idx(1, y + 1, w) == Idx(x, y, w) + (w - x) + 1;
      forall k | 0 <= k < buf.Length
        ensures buf[k] == (if k < Idx(1, y + 1, w) then s[k] else 0.0)
      {
        if Idx(x, y, w) <= k < Idx(1, y + 1, w) {
          assert s[k] == 0.0;
        }
      }
      y := y + 1;
    }
    SobelZeroAfter(data, w, h, sqrt, y);
    result := buf[..];
    assert result == s;
  }

  /** A cell between (x0, y0) and (1, y0 + 1) in row-major order is on the
      border when (x0, y0) is in the first row or at the end of its row. */
  lemma CellBetweenOnBorder(cx: nat, cy: nat, w: nat, h: nat, x0: nat, y0: nat)
    requires cx < w && cy < h && (y0 == 0 || w <= x0 + 1)
    requires Idx(x0, y0, w) <= Idx(cx, cy, w) < Idx(1, y0 + 1, w)
    ensures !Interior(w, h, cx, cy)
  {
    if cy < y0 {
      IdxOrder(cx, cy, 0, y0, w);
    } else if cy > y0 + 1 {
      MulMonotone(y0 + 2, cy, w);
      assert (y0 + 2) * w == (y0 + 1) * w + w;
    }
  }

  /** A cell at or after (1, y) in row-major order lies in the last row when y + 1 >= h. */
  lemma CellAfterOnBorder(cx: nat, cy: nat, w: nat, h: nat, y: nat)
    requires cx < w && cy < h && h <= y + 1
    requires Idx(1, y, w) <= Idx(cx, cy, w)
    ensures !Interior(w, h, cx, cy)
  {
    if cy + 1 < y {
      IdxOrder(cx, cy, 0, y, w);
    }
  }

  /** `sobel_magnitude` leaves the cells between (x0, y0) and (1, y0 + 1) at 0. */
  lemma SobelZeroBetween(data: seq<real>, w: nat, h: nat, sqrt: real -> real, x0: nat, y0: nat)
    requires |data| == w * h && (y0 == 0 || w <= x0 + 1)
    ensures forall k | Idx(x0, y0, w) <= k < Idx(1, y0 + 1, w) && k < |Sobel(data, w, h, sqrt)| ::
              Sobel(data, w, h, sqrt)[k] == 0.0
  {
    forall k | Idx(x0, y0, w) <= k < Idx(1, y0 + 1, w) && k < |Sobel(data, w, h, sqrt)|
      ensures Sobel(data, w, h, sqrt)[k] == 0.0
    {
      SobelZeroCellBetween(data, w, h, sqrt, x0, y0, k);
    }
  }

  lemma SobelZeroCellBetween(data: seq<real>, w: nat, h: nat, sqrt: real -> real, x0: nat, y0: nat, k: nat)
    requires |data| == w * h && (y0 == 0 || w <= x0 + 1)
    requires Idx(x0, y0, w) <= k < Idx(1, y0 + 1, w) && k < w * h
    ensures Sobel(data, w, h, sqrt)[k] == 0.0
  {
    assert w != 0;
    IdxOfDivMod(k, w, h);
    CellBetweenOnBorder(k % w, k / w, w, h, x0, y0);
    SobelCell(data, w, h, sqrt, k % w, k / w);
  }

  /** `sobel_magnitude` leaves every cell from (1, y) on at 0 once y + 1 >= h. */
  lemma SobelZeroAfter(data: seq<real>, w: nat, h: nat, sqrt: real -> real, y: nat)
    requires |data| == w * h && h <= y + 1
    ensures forall k | Idx(1, y, w) <= k < |Sobel(data, w, h, sqrt)| :: Sobel(data, w, h, sqrt)[k] == 0.0
  {
    var rows := SobelRows(data, w, h, sqrt);
    forall k | Idx(1, y, w) <= k < |Flatten(rows)|
      ensures Flatten(rows)[k] == 0.0
    {
      FlattenIndex(rows, w, k);
      FlattenLength(rows, w);
      IdxOfDivMod(k, w, h);
      CellAfterOnBorder(k % w, k / w, w, h, y);
    }
  }

  /** Entry `y * w + x` of the Sobel output is the magnitude at (x, y): the
      kernel response inside, 0 on the border. */
  lemma SobelCell(data: seq<real>, w: nat, h: nat, sqrt: real -> real, x: nat, y: nat)
    requires |data| == w * h && x < w && y < h
    ensures Idx(x, y, w) < |Sobel(data, w, h, sqrt)|
    ensures Sobel(data, w, h, sqrt)[Idx(x, y, w)] == SobelAt(data, w, h, x, y, sqrt)
    ensures !Interior(w, h, x, y) ==> Sobel(data, w, h, sqrt)[Idx(x, y, w)] == 0.0
  {
    FlattenAt(SobelRows(data, w, h, sqrt), w, x, y);
  }

  /** Gradient magnitudes are never negative. */
  lemma SobelNonNegative(data: seq<real>, w: nat, h: nat, sqrt: real -> real)
    requires |data| == w * h && IsSqrt(sqrt)
    ensures forall k | 0 <= k < |Sobel(data, w, h, sqrt)| :: Sobel(data, w, h, sqrt)[k] >= 0.0
  {
    var rows := SobelRows(data, w, h, sqrt);
    forall k | 0 <= k < |Flatten(rows)|
      ensures Flatten(rows)[k] >= 0.0
    {
      FlattenIndex(rows, w, k);
      SobelAtNonNegative(data, w, h, k % w, k / w, sqrt);
    }
  }

  lemma SobelAtNonNegative(data: seq<real>, w: nat, h: nat, x: nat, y: nat, sqrt: real -> real)
    requires |data| == w * h && x < w && y < h && IsSqrt(sqrt)
    ensures SobelAt(data, w, h, x, y, sqrt) >= 0.0
  {
    if Interior(w, h, x, y) {
      MagnitudeNonNegative(SobelX(data, w, h, x, y), SobelY(data, w, h, x, y), sqrt);
    }
  }

  lemma MagnitudeNonNegative(gx: real, gy: real, sqrt: real -> real)
    requires IsSqrt(sqrt)
    ensures Magnitude(gx, gy, sqrt) >= 0.0
  {
    if gx != 0.0 {
      SquarePositive(gx);
    }
    if gy != 0.0 {
      SquarePositive(gy);
    }
    SqrtFacts(sqrt, gx * gx + gy * gy);
  }

  /** Both kernels vanish on a flat neighbourhood. */
  lemma KernelsOfConstant(data: seq<real>, w: nat, h: nat, c: real, x: nat, y: nat)
    requires |data| == w * h && Interior(w, h, x, y)
    requires forall i | 0 <= i < |data| :: data[i] == c
    ensures SobelX(data, w, h, x, y) == 0.0 && SobelY(data, w, h, x, y) == 0.0
  {
    forall cx: nat, cy: nat | cx < w && cy < h
      ensures Cell(data, w, h, cx, cy) == c
    {
      IdxBound(cx, cy, w, h);
    }
  }

  /** A flat field has no edges: every gradient magnitude is 0. */
  lemma SobelOfConstant(data: seq<real>, w: nat, h: nat, c: real, sqrt: real -> real)
    requires |data| == w * h && IsSqrt(sqrt)
    requires forall i | 0 <= i < |data| :: data[i] == c
    ensures forall k | 0 <= k < |Sobel(data, w, h, sqrt)| :: Sobel(data, w, h, sqrt)[k] == 0.0
  {
    var rows := SobelRows(data, w, h, sqrt);
    SqrtZero(sqrt);
    forall k | 0 <= k < |Flatten(rows)|
      ensures Flatten(rows)[k] == 0.0
    {
      FlattenIndex(rows, w, k);
      var x, y := k % w, k / w;
      if Interior(w, h, x, y) {
        KernelsOfConstant(data, w, h, c, x, y);
        assert Magnitude(0.0, 0.0, sqrt) == 0.0;
      }
    }
  }

  /** A vertical step from 0 to 1 between columns 4 and 5 of a 10 by 10
      field gives magnitude 4 at (5, 5): gx = 4, gy = 0. */
  lemma SobelVerticalEdge(sqrt: real -> real)
    requires IsSqrt(sqrt)
    ensures var data := seq(100, k requires 0 <= k < 100 => if k % 10 >= 5 then 1.0 else 0.0);
            Sobel(data, 10, 10, sqrt)[55] == 4.0
  {
    var data := seq(100, k requires 0 <= k < 100 => if k % 10 >= 5 then 1.0 else 0.0);
    SobelCell(data, 10, 10, sqrt, 5, 5);
    assert SobelX(data, 10, 10, 5, 5) == 4.0;
    assert SobelY(data, 10, 10, 5, 5) == 0.0;
    SqrtOfSquare(sqrt, 4.0);
  }

  // ---------------------------------------------------------------------------
  // The ensemble detector
  // ---------------------------------------------------------------------------

  /** The region's brightness in row-major order, as `region_to_grayscale` returns it. */
  function GrayRegion(pic: Picture, x0: nat, y0: nat, w: nat, h: nat): (gray: seq<real>)
    requires pic.Wellformed() && x0 + w <= pic.width && y0 + h <= pic.height
    ensures |gray| == w * h
  {
    FlattenLength(GrayRows(pic, x0, y0, w, h), w);
    Flatten(GrayRows(pic, x0, y0, w, h))
  }

  /** Entry `dy * w + dx` of the grayscale region is the luma of pixel
      (x0 + dx, y0 + dy). */
  lemma GrayRegionAt(pic: Picture, x0: nat, y0: nat, w: nat, h: nat, dx: nat, dy: nat)
    requires pic.Wellformed() && x0 + w <= pic.width && y0 + h <= pic.height
    requires dx < w && dy < h
    ensures Idx(dx, dy, w) < |GrayRegion(pic, x0, y0, w, h)|
    ensures GrayRegion(pic, x0, y0, w, h)[Idx(dx, dy, w)] == Luma(pic.rows[y0 + dy][x0 + dx])
  {
    FlattenAt(GrayRows(pic, x0, y0, w, h), w, dx, dy);
  }

  /** The alpha values under the clipped `w` by `h` region: the whole map when
      nothing was clipped, otherwise its top-left corner. */
  function AlphaRegion(alphaMap: seq<real>, wmWidth: nat, wmHeight: nat, w: nat, h: nat): (alpha: seq<real>)
    requires |alphaMap| == wmWidth * wmHeight && w <= wmWidth && h <= wmHeight
    ensures |alpha| == w * h
  {
    if w == wmWidth && h == wmHeight then alphaMap
    else
      FlattenLength(AlphaRows(alphaMap, wmWidth, wmHeight, w, h), w);
      Flatten(AlphaRows(alphaMap, wmWidth, wmHeight, w, h))
  }

  /** Height of the reference band taken just above the watermark: no taller
      than the watermark, than the rows above it, or than the rows from it
      to the bottom of the image. */
  function RefHeight(posY: nat, wmHeight: nat, imgHeight: nat): (r: nat)
    ensures r <= posY && r <= wmHeight
    ensures r > 0 ==> posY + r <= imgHeight
    ensures r == posY || r == wmHeight || r == SaturatingSub(imgHeight, posY)
  {
    Min(Min(posY, wmHeight), SaturatingSub(imgHeight, posY))
  }

  /** How much flatter the watermark region is than the reference band:
      1 - wm/ref, clamped to [0, 1]. */
  function Dampening(wmStdDev: real, refStdDev: real): (v: real)
    requires refStdDev > MinRefStdDev
    ensures 0.0 <= v <= 1.0
    ensures wmStdDev == 0.0 ==> v == 1.0
    ensures 0.0 <= wmStdDev && refStdDev <= wmStdDev ==> v == 0.0
  {
    var q := wmStdDev / refStdDev;
    assert refStdDev <= wmStdDev ==> q >= 1.0 by {
      assert q * refStdDev == wmStdDev;
    }
    Clamp(1.0 - q, 0.0, 1.0)
  }

  /** Stage 3: the dampening of the region against the band above it, or 0
      when there is no band taller than `MinRefHeight` rows or the band is
      too flat to compare with. */
  function VarianceStage(pic: Picture, posX: nat, posY: nat, roiW: nat, wmHeight: nat,
                         gray: seq<real>, sqrt: real -> real): (v: real)
    requires pic.Wellformed() && posX + roiW <= pic.width
    ensures 0.0 <= v <= 1.0
  {
    var refH := RefHeight(posY, wmHeight, pic.height);
    if refH > MinRefHeight && posY >= refH then
      var refStdDev := StdDev(GrayRegion(pic, posX, posY - refH, roiW, refH), sqrt);
      if refStdDev > MinRefStdDev then Dampening(StdDev(gray, sqrt), refStdDev) else 0.0
    else 0.0
  }

  /** The weighted sum of the three scores, clamped to [0, 1], and the verdict. */
  function Ensemble(spatial: real, gradient: real, variance: real): (r: DetectionResult)
    ensures r.spatialScore == spatial && r.gradientScore == gradient && r.varianceScore == variance
    ensures 0.0 <= r.confidence <= 1.0
    ensures r.detected <==> r.confidence >= DetectionThreshold
    ensures 0.0 <= SpatialWeight * spatial + GradientWeight * gradient + VarianceWeight * variance <= 1.0 ==>
              r.confidence == SpatialWeight * spatial + GradientWeight * gradient + VarianceWeight * variance
  {
    var confidence := Clamp(SpatialWeight * spatial + GradientWeight * gradient + VarianceWeight * variance, 0.0, 1.0);
    DetectionResult(confidence >= DetectionThreshold, confidence, spatial, gradient, variance)
  }

  /** The scores of a clipped region of `roiW` by `roiH` pixels at (posX, posY)
      whose brightness is `gray` and whose alpha values are `alpha`: stage 1,
      the circuit breaker, then stages 2 and 3 and the ensemble. */
  function RegionScores(pic: Picture, gray: seq<real>, alpha: seq<real>, posX: nat, posY: nat,
                        roiW: nat, roiH: nat, wmHeight: nat, userThreshold: real, sqrt: real -> real)
    : DetectionResult
    requires pic.Wellformed() && posX + roiW <= pic.width
    requires |gray| == roiW * roiH && |alpha| == roiW * roiH
  {
    var spatial := MaxReal(Ncc(gray, alpha, sqrt), 0.0);
    if spatial < MinReal(userThreshold, SpatialCircuitBreaker) then
      NotDetected.(confidence := spatial * 0.5, spatialScore := spatial)
    else
      var gradient := MaxReal(Ncc(Sobel(gray, roiW, roiH, sqrt), Sobel(alpha, roiW, roiH, sqrt), sqrt), 0.0);
      Ensemble(spatial, gradient, VarianceStage(pic, posX, posY, roiW, wmHeight, gray, sqrt))
  }

  /** What `detect_watermark` reports for the watermark of `wmWidth` by
      `wmHeight` pixels whose top-left corner is (posX, posY). */
  function DetectionOf(pic: Picture, alphaMap: seq<real>, wmWidth: nat, wmHeight: nat,
                       posX: nat, posY: nat, userThreshold: real, sqrt: real -> real): DetectionResult
    requires pic.Wellformed() && |alphaMap| == wmWidth * wmHeight
  {
    var x2 := ClipEnd(posX, wmWidth, pic.width);
    var y2 := ClipEnd(posY, wmHeight, pic.height);
    if posX >= x2 || posY >= y2 then NotDetected
    else
      var roiW, roiH := x2 - posX, y2 - posY;
      RegionScores(pic, GrayRegion(pic, posX, posY, roiW, roiH), AlphaRegion(alphaMap, wmWidth, wmHeight, roiW, roiH),
                   posX, posY, roiW, roiH, wmHeight, userThreshold, sqrt)
  }

  /** `detect_watermark`: clip the region to the image, extract its
      brightness and the alpha values under it, and score it. */
  method DetectWatermark(img: Image, alphaMap: seq<real>, wmWidth: nat, wmHeight: nat,
                         posX: nat, posY: nat, userThreshold: real, sqrt: real -> real)
    returns (result: DetectionResult)
    requires img.Valid() && |alphaMap| == wmWidth * wmHeight
    ensures result == DetectionOf(img.Snapshot(), alphaMap, wmWidth, wmHeight, posX, posY, userThreshold, sqrt)
  {
    var x2 := ClipEnd(posX, wmWidth, img.width);
    var y2 := ClipEnd(posY, wmHeight, img.height);
    if posX >= x2 || posY >= y2 {
      return NotDetected;
    }
    var roiW, roiH := x2 - posX, y2 - posY;
    DetectionOfRegion(img.Snapshot(), alphaMap, wmWidth, wmHeight, posX, posY, roiW, roiH, userThreshold, sqrt);

    var gray := RegionToGrayscale(img, posX, posY, roiW, roiH);
    var alphaRegion := AlphaForRegion(alphaMap, wmWidth, wmHeight, roiW, roiH);
    result := ScoreRegion(img, gray, alphaRegion, posX, posY, roiW, roiH, wmHeight, userThreshold, sqrt);
  }

  /** The alpha values under the clipped region: a copy of the map when
      nothing was clipped, the sub-region loop otherwise. */
  method AlphaForRegion(alphaMap: seq<real>, wmWidth: nat, wmHeight: nat, w: nat, h: nat)
    returns (alpha: seq<real>)
    requires |alphaMap| == wmWidth * wmHeight && w <= wmWidth && h <= wmHeight
    ensures alpha == AlphaRegion(alphaMap, wmWidth, wmHeight, w, h)
  {
    if w == wmWidth && h == wmHeight {
      alpha := alphaMap;
    } else {
      alpha := AlphaSubRegion(alphaMap, wmWidth, wmHeight, w, h);
    }
  }

  /** The scoring part of `detect_watermark`: spatial NCC and the circuit
      breaker, then gradient NCC, the variance stage and the weighted
      ensemble, filling in the result as it goes. */
  method ScoreRegion(img: Image, gray: seq<real>, alpha: seq<real>, posX: nat, posY: nat,
                     roiW: nat, roiH: nat, wmHeight: nat, userThreshold: real, sqrt: real -> real)
    returns (result: DetectionResult)
    requires img.Valid() && posX + roiW <= img.width && 1 <= roiW && 1 <= roiH
    requires |gray| == roiW * roiH && |alpha| == roiW * roiH
    ensures result == RegionScores(img.Snapshot(), gray, alpha, posX, posY, roiW, roiH, wmHeight, userThreshold, sqrt)
  {
    result := NotDetected;

    // Stage 1: spatial NCC, and the circuit breaker.
    var spatial := ComputeNcc(gray, alpha, sqrt);
    spatial := MaxReal(spatial, 0.0);
    result := result.(spatialScore := spatial);
    var breaker := MinReal(userThreshold, SpatialCircuitBreaker);
    if spatial < breaker {
      result := result.(confidence := spatial * 0.5);
      return;
    }

    // Stage 2: NCC of the gradient magnitudes.
    var gradient := GradientStage(gray, alpha, roiW, roiH, sqrt);
    result := result.(gradientScore := gradient);

    // Stage 3: texture against the band above the watermark.
    var variance := ReferenceVariance(img, posX, posY, roiW, wmHeight, gray, sqrt);
    result := result.(varianceScore := variance);

    var confidence := SpatialWeight * spatial + GradientWeight * gradient + VarianceWeight * variance;
    result := result.(confidence := Clamp(confidence, 0.0, 1.0));
    result := result.(detected := result.confidence >= DetectionThreshold);
  }

  /** Stage 2 of `detect_watermark`: NCC of the Sobel gradient magnitudes
      of the region and of the alpha values, floored at 0. */
  method GradientStage(gray: seq<real>, alpha: seq<real>, w: nat, h: nat, sqrt: real -> real)
    returns (gradient: real)
    requires |gray| == w * h && |alpha| == w * h && 1 <= w && 1 <= h
    ensures gradient == MaxReal(Ncc(Sobel(gray, w, h, sqrt), Sobel(alpha, w, h, sqrt), sqrt), 0.0)
  {
    var imgGrad := SobelMagnitude(gray, w, h, sqrt);
    var alphaGrad := SobelMagnitude(alpha, w, h, sqrt);
    gradient := ComputeNcc(imgGrad, alphaGrad, sqrt);
    gradient := MaxReal(gradient, 0.0);
  }

  /** Stage 3 of `detect_watermark`: compare the region's texture with the
      band of rows just above it. */
  method ReferenceVariance(img: Image, posX: nat, posY: nat, roiW: nat, wmHeight: nat,
                           gray: seq<real>, sqrt: real -> real)
    returns (variance: real)
    requires img.Valid() && posX + roiW <= img.width
    ensures variance == VarianceStage(img.Snapshot(), posX, posY, roiW, wmHeight, gray, sqrt)
  {
    variance := 0.0;
    var refH := RefHeight(posY, wmHeight, img.height);
    if refH > MinRefHeight && posY >= refH {
      var refRegion := RegionToGrayscale(img, posX, posY - refH, roiW, refH);
      ghost var pic := img.Snapshot();
      assert refRegion == GrayRegion(pic, posX, posY - refH, roiW, refH);
      var wmStdDev := StdDev(gray, sqrt);
      var refStdDev := StdDev(refRegion, sqrt);
      if refStdDev > MinRefStdDev {
        variance := Dampening(wmStdDev, refStdDev);
      }
    }
  }


  // ---------------------------------------------------------------------------
  // Properties of the detector
  // ---------------------------------------------------------------------------

  /** A watermark that starts outside the image, or has no area, is not
      detected and gets all-zero scores. */
  lemma EmptyRegionNotDetected(pic: Picture, alphaMap: seq<real>, wmWidth: nat, wmHeight: nat,
                               posX: nat, posY: nat, userThreshold: real, sqrt: real -> real)
    requires pic.Wellformed() && |alphaMap| == wmWidth * wmHeight
    requires posX >= pic.width || posY >= pic.height || wmWidth == 0 || wmHeight == 0
    ensures DetectionOf(pic, alphaMap, wmWidth, wmHeight, posX, posY, userThreshold, sqrt) == NotDetected
  {
  }

  /** On every path the verdict is exactly "confidence reaches the detection
      threshold", the confidence lies in [0, 1], the spatial and gradient
      scores are not negative and the variance score lies in [0, 1]. */
  lemma DetectionWellFormed(pic: Picture, alphaMap: seq<real>, wmWidth: nat, wmHeight: nat,
                            posX: nat, posY: nat, userThreshold: real, sqrt: real -> real)
    requires pic.Wellformed() && |alphaMap| == wmWidth * wmHeight
    ensures var r := DetectionOf(pic, alphaMap, wmWidth, wmHeight, posX, posY, userThreshold, sqrt);
      (r.detected <==> r.confidence >= DetectionThreshold) &&
      0.0 <= r.confidence <= 1.0 && 0.0 <= r.spatialScore && 0.0 <= r.gradientScore &&
      0.0 <= r.varianceScore <= 1.0
  {
  }

  /** With a genuine square root, the two correlation scores are at most 1. */
  lemma ScoresAtMostOne(pic: Picture, alphaMap: seq<real>, wmWidth: nat, wmHeight: nat,
                        posX: nat, posY: nat, userThreshold: real, sqrt: real -> real)
    requires pic.Wellformed() && |alphaMap| == wmWidth * wmHeight && IsSqrt(sqrt)
    ensures var r := DetectionOf(pic, alphaMap, wmWidth, wmHeight, posX, posY, userThreshold, sqrt);
      r.spatialScore <= 1.0 && r.gradientScore <= 1.0
  {
    var x2 := ClipEnd(posX, wmWidth, pic.width);
    var y2 := ClipEnd(posY, wmHeight, pic.height);
    if posX < x2 && posY < y2 {
      var roiW, roiH := x2 - posX, y2 - posY;
      var gray := GrayRegion(pic, posX, posY, roiW, roiH);
      var alpha := AlphaRegion(alphaMap, wmWidth, wmHeight, roiW, roiH);
      DetectionOfRegion(pic, alphaMap, wmWidth, wmHeight, posX, posY, roiW, roiH, userThreshold, sqrt);
      RegionScoresAtMostOne(pic, gray, alpha, posX, posY, roiW, roiH, wmHeight, userThreshold, sqrt);
    } else {
      EmptyRegionNotDetected(pic, alphaMap, wmWidth, wmHeight, posX, posY, userThreshold, sqrt);
    }
  }

  lemma RegionScoresAtMostOne(pic: Picture, gray: seq<real>, alpha: seq<real>, posX: nat, posY: nat,
                              roiW: nat, roiH: nat, wmHeight: nat, userThreshold: real, sqrt: real -> real)
    requires pic.Wellformed() && posX + roiW <= pic.width && IsSqrt(sqrt)
    requires |gray| == roiW * roiH && |alpha| == roiW * roiH
    ensures var r := RegionScores(pic, gray, alpha, posX, posY, roiW, roiH, wmHeight, userThreshold, sqrt);
      r.spatialScore <= 1.0 && r.gradientScore <= 1.0
  {
    NccBounded(gray, alpha, sqrt);
    NccBounded(Sobel(gray, roiW, roiH, sqrt), Sobel(alpha, roiW, roiH, sqrt), sqrt);
  }

  /** The circuit breaker: a spatial score below min(user threshold, 0.25)
      ends detection with no gradient or variance score, half the spatial
      score as confidence, and no detection. */
  lemma CircuitBreakerStops(pic: Picture, alphaMap: seq<real>, wmWidth: nat, wmHeight: nat,
                            posX: nat, posY: nat, userThreshold: real, sqrt: real -> real)
    requires pic.Wellformed() && |alphaMap| == wmWidth * wmHeight
    ensures var r := DetectionOf(pic, alphaMap, wmWidth, wmHeight, posX, posY, userThreshold, sqrt);
      r.spatialScore < MinReal(userThreshold, SpatialCircuitBreaker) ==>
        r.gradientScore == 0.0 && r.varianceScore == 0.0 &&
        r.confidence == r.spatialScore * 0.5 && !r.detected
  {
  }

  /** A non-zero variance score needs a reference band taller than
      `MinRefHeight` rows above the watermark, textured beyond `MinRefStdDev`. */
  lemma VarianceNeedsReference(pic: Picture, alphaMap: seq<real>, wmWidth: nat, wmHeight: nat,
                               posX: nat, posY: nat, userThreshold: real, sqrt: real -> real)
    requires pic.Wellformed() && |alphaMap| == wmWidth * wmHeight
    ensures var r := DetectionOf(pic, alphaMap, wmWidth, wmHeight, posX, posY, userThreshold, sqrt);
      var refH := RefHeight(posY, wmHeight, pic.height);
      r.varianceScore != 0.0 ==>
        refH > MinRefHeight && posY >= refH && posX < pic.width &&
        StdDev(GrayRegion(pic, posX, posY - refH, ClipEnd(posX, wmWidth, pic.width) - posX, refH), sqrt) > MinRefStdDev
  {
    var x2 := ClipEnd(posX, wmWidth, pic.width);
    var y2 := ClipEnd(posY, wmHeight, pic.height);
    if posX < x2 && posY < y2 {
      var roiW, roiH := x2 - posX, y2 - posY;
      var gray := GrayRegion(pic, posX, posY, roiW, roiH);
      var alpha := AlphaRegion(alphaMap, wmWidth, wmHeight, roiW, roiH);
      DetectionOfRegion(pic, alphaMap, wmWidth, wmHeight, posX, posY, roiW, roiH, userThreshold, sqrt);
      RegionVariance(pic, gray, alpha, posX, posY, roiW, roiH, wmHeight, userThreshold, sqrt);
    }
  }

  /** A region that is not clipped away is scored on its brightness and the
      alpha values under it. */
  lemma DetectionOfRegion(pic: Picture, alphaMap: seq<real>, wmWidth: nat, wmHeight: nat,
                          posX: nat, posY: nat, roiW: nat, roiH: nat, userThreshold: real, sqrt: real -> real)
    requires pic.Wellformed() && |alphaMap| == wmWidth * wmHeight
    requires 0 < roiW && posX + roiW == ClipEnd(posX, wmWidth, pic.width)
    requires 0 < roiH && posY + roiH == ClipEnd(posY, wmHeight, pic.height)
    ensures DetectionOf(pic, alphaMap, wmWidth, wmHeight, posX, posY, userThreshold, sqrt) ==
      RegionScores(pic, GrayRegion(pic, posX, posY, roiW, roiH), AlphaRegion(alphaMap, wmWidth, wmHeight, roiW, roiH),
                   posX, posY, roiW, roiH, wmHeight, userThreshold, sqrt)
  {
  }

  /** The variance score of a scored region is 0 or its variance stage, and
      a non-zero variance stage had a textured reference band. */
  lemma RegionVariance(pic: Picture, gray: seq<real>, alpha: seq<real>, posX: nat, posY: nat,
                       roiW: nat, roiH: nat, wmHeight: nat, userThreshold: real, sqrt: real -> real)
    requires pic.Wellformed() && posX + roiW <= pic.width
    requires |gray| == roiW * roiH && |alpha| == roiW * roiH
    ensures var v := RegionScores(pic, gray, alpha, posX, posY, roiW, roiH, wmHeight, userThreshold, sqrt).varianceScore;
      var refH := RefHeight(posY, wmHeight, pic.height);
      v != 0.0 ==>
        v == VarianceStage(pic, posX, posY, roiW, wmHeight, gray, sqrt) &&
        refH > MinRefHeight && posY >= refH &&
        StdDev(GrayRegion(pic, posX, posY - refH, roiW, refH), sqrt) > MinRefStdDev
  {
  }

  /** A region of one colour has constant brightness. */
  lemma GrayRegionOfUniform(pic: Picture, x0: nat, y0: nat, w: nat, h: nat, p: Rgb)
    requires pic.Wellformed() && x0 + w <= pic.width && y0 + h <= pic.height
    requires forall y, x | y0 <= y < y0 + h && x0 <= x < x0 + w :: pic.rows[y][x] == p
    ensures forall k | 0 <= k < |GrayRegion(pic, x0, y0, w, h)| :: GrayRegion(pic, x0, y0, w, h)[k] == Luma(p)
  {
    var rows := GrayRows(pic, x0, y0, w, h);
    forall k | 0 <= k < |Flatten(rows)|
      ensures Flatten(rows)[k] == Luma(p)
    {
      FlattenIndex(rows, w, k);
    }
  }

  /** A region of one colour is never reported as watermarked: its spatial
      and gradient scores are 0, so its confidence is at most the variance
      weight; and when the user threshold is positive the circuit breaker
      trips, leaving every score and the confidence at 0. */
  lemma UniformRegionNotDetected(pic: Picture, alphaMap: seq<real>, wmWidth: nat, wmHeight: nat,
                                 posX: nat, posY: nat, userThreshold: real, sqrt: real -> real, p: Rgb)
    requires pic.Wellformed() && |alphaMap| == wmWidth * wmHeight && IsSqrt(sqrt)
    requires forall y, x | posY <= y < ClipEnd(posY, wmHeight, pic.height) && posX <= x < ClipEnd(posX, wmWidth, pic.width) ::
               pic.rows[y][x] == p
    ensures var r := DetectionOf(pic, alphaMap, wmWidth, wmHeight, posX, posY, userThreshold, sqrt);
      !r.detected && r.spatialScore == 0.0 && r.gradientScore == 0.0 && r.confidence <= VarianceWeight &&
      (userThreshold > 0.0 ==> r.confidence == 0.0 && r.varianceScore == 0.0)
  {
    var x2 := ClipEnd(posX, wmWidth, pic.width);
    var y2 := ClipEnd(posY, wmHeight, pic.height);
    if posX < x2 && posY < y2 {
      var roiW, roiH := x2 - posX, y2 - posY;
      DetectionOfRegion(pic, alphaMap, wmWidth, wmHeight, posX, posY, roiW, roiH, userThreshold, sqrt);
      UniformRegionScores(pic, alphaMap, wmWidth, wmHeight, posX, posY, roiW, roiH, userThreshold, sqrt, p);
    }
  }

  /** A picture of one colour throughout gets confidence 0 at every user
      threshold, 0 included: the reference band above the watermark is flat
      as well, so the variance stage is 0 too. */
  lemma UniformPictureConfidenceZero(pic: Picture, alphaMap: seq<real>, wmWidth: nat, wmHeight: nat,
                                     posX: nat, posY: nat, userThreshold: real, sqrt: real -> real, p: Rgb)
    requires pic.Wellformed() && |alphaMap| == wmWidth * wmHeight && IsSqrt(sqrt)
    requires forall y, x | 0 <= y < pic.height && 0 <= x < pic.width :: pic.rows[y][x] == p
    ensures var r := DetectionOf(pic, alphaMap, wmWidth, wmHeight, posX, posY, userThreshold, sqrt);
      !r.detected && r.confidence == 0.0 && r.varianceScore == 0.0
  {
    UniformRegionNotDetected(pic, alphaMap, wmWidth, wmHeight, posX, posY, userThreshold, sqrt, p);
    var x2 := ClipEnd(posX, wmWidth, pic.width);
    var y2 := ClipEnd(posY, wmHeight, pic.height);
    if posX < x2 && posY < y2 {
      var roiW, roiH := x2 - posX, y2 - posY;
      DetectionOfRegion(pic, alphaMap, wmWidth, wmHeight, posX, posY, roiW, roiH, userThreshold, sqrt);
      var gray := GrayRegion(pic, posX, posY, roiW, roiH);
      var refH := RefHeight(posY, wmHeight, pic.height);
      if refH > MinRefHeight && posY >= refH {
        var band := GrayRegion(pic, posX, posY - refH, roiW, refH);
        GrayRegionOfUniform(pic, posX, posY - refH, roiW, refH, p);
        StdDevConstant(band, Luma(p), sqrt);
      }
      assert VarianceStage(pic, posX, posY, roiW, wmHeight, gray, sqrt) == 0.0;
    }
  }

  /** `FlatRegionScores` for the brightness of a region of one colour. */
  lemma UniformRegionScores(pic: Picture, alphaMap: seq<real>, wmWidth: nat, wmHeight: nat, posX: nat, posY: nat,
                            roiW: nat, roiH: nat, userThreshold: real, sqrt: real -> real, p: Rgb)
    requires pic.Wellformed() && |alphaMap| == wmWidth * wmHeight && IsSqrt(sqrt)
    requires posX + roiW <= pic.width && posY + roiH <= pic.height && roiW <= wmWidth && roiH <= wmHeight
    requires forall y, x | posY <= y < posY + roiH && posX <= x < posX + roiW :: pic.rows[y][x] == p
    ensures var r := RegionScores(pic, GrayRegion(pic, posX, posY, roiW, roiH), AlphaRegion(alphaMap, wmWidth, wmHeight, roiW, roiH),
                                  posX, posY, roiW, roiH, wmHeight, userThreshold, sqrt);
      !r.detected && r.spatialScore == 0.0 && r.gradientScore == 0.0 && r.confidence <= VarianceWeight &&
      (userThreshold > 0.0 ==> r.confidence == 0.0 && r.varianceScore == 0.0)
  {
    GrayRegionOfUniform(pic, posX, posY, roiW, roiH, p);
    FlatRegionScores(pic, GrayRegion(pic, posX, posY, roiW, roiH), AlphaRegion(alphaMap, wmWidth, wmHeight, roiW, roiH),
                     posX, posY, roiW, roiH, wmHeight, userThreshold, sqrt, Luma(p));
  }

  /** The scores of a region of constant brightness `c`. */
  lemma FlatRegionScores(pic: Picture, gray: seq<real>, alpha: seq<real>, posX: nat, posY: nat,
                         roiW: nat, roiH: nat, wmHeight: nat, userThreshold: real, sqrt: real -> real, c: real)
    requires pic.Wellformed() && posX + roiW <= pic.width && IsSqrt(sqrt)
    requires |gray| == roiW * roiH && |alpha| == roiW * roiH
    requires forall k | 0 <= k < |gray| :: gray[k] == c
    ensures var r := RegionScores(pic, gray, alpha, posX, posY, roiW, roiH, wmHeight, userThreshold, sqrt);
      !r.detected && r.spatialScore == 0.0 && r.gradientScore == 0.0 && r.confidence <= VarianceWeight &&
      (userThreshold > 0.0 ==> r.confidence == 0.0 && r.varianceScore == 0.0)
  {
    NccOfConstant(gray, alpha, c, sqrt);
    SobelOfConstant(gray, roiW, roiH, c, sqrt);
    NccOfConstant(Sobel(gray, roiW, roiH, sqrt), Sobel(alpha, roiW, roiH, sqrt), 0.0, sqrt);
  }
}
