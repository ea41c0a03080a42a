/**
 * The resolution constraint solver of the image adapter: rounding helpers and
 * `sd_fix_resolution`, which fits a requested size to a per-side limit and an area
 * limit while keeping both sides multiples of 64 and the aspect ratio as close to the
 * request as the candidates it tries allow.
 *
 * Float arithmetic is modelled as exact real arithmetic. The area step's scale factor
 * `sqrt(area / (long * short))` then gives the truncated sides
 * `trunc(short * scale) == ISqrt(area * short / long)` and likewise for the long side.
 */
module Resolution {
  import opened Common

  const Alignment: int := 64
  const MinSide: int := 64
  const MaxSide: int := 8192
  /** `hard_megapixel_res_limit`: the area limit's side never exceeds this. */
  const MaxSoftLimit: int := 2048

  /** C's `/` on `int`: the quotient truncated toward zero. */
  function CDiv(a: int, b: int): (q: int)
    requires b != 0
    ensures a >= 0 && b > 0 ==> q == a / b
    ensures a < 0 && b > 0 ==> q == -((-a) / b)
  {
    var m := (if a < 0 then -a else a) / (if b < 0 then -b else b);
    if (a < 0) != (b < 0) then -m else m
  }

  /** C's `%` on `int`: the remainder of `CDiv`, which takes the dividend's sign. */
  function CRem(a: int, b: int): int
    requires b != 0
  {
    a - CDiv(a, b) * b
  }

  /** `rounddown_64`: the multiple of 64 next to `n` toward zero. */
  function RoundDown64(n: int): (r: int)
    ensures r % 64 == 0
    ensures n >= 0 ==> 0 <= r <= n < r + 64
    ensures n < 0 ==> r - 64 < n <= r <= 0
  {
    n - CRem(n, 64)
  }

  /** `roundup_64`: for a non-negative `n`, the least multiple of 64 that is at least `n`. */
  function RoundUp64(n: int): (r: int)
    ensures r % 64 == 0
    ensures n >= 0 ==> n <= r < n + 64
  {
    CDiv(n + 63, 64) * 64
  }

  /** `roundnearest`: for positive `multiple` and non-negative `n`, the nearest multiple
      of `multiple` (halves round up). */
  function RoundNearest(multiple: int, n: int): (r: int)
    requires multiple != 0
    ensures multiple > 0 && n >= 0 ==>
      r % multiple == 0 && r - multiple / 2 <= n < r + multiple - multiple / 2
  {
    var q := CDiv(n + CDiv(multiple, 2), multiple);
    if multiple > 0 && n >= 0 then
      DivFloor(n + multiple / 2, multiple);
      MulMod(q, multiple);
      q * multiple
    else
      q * multiple
  }

  /** The clamp applied to each requested side before anything else. */
  function Clamp(x: int): (r: int)
    ensures MinSide <= r <= MaxSide
    ensures MinSide <= x <= MaxSide ==> r == x
  {
    ClampTo(x, MinSide, MaxSide)
  }

  /** A side the solver can return: a multiple of 64 in [64, 8192]. */
  predicate IsSide(x: int)
  {
    x % Alignment == 0 && MinSide <= x <= MaxSide
  }

  /** A size that already satisfies everything the solver enforces. */
  predicate Fits(w: int, h: int, hardLimit: int, softLimit: int)
  {
    IsSide(w) && IsSide(h) && w <= RoundDown64(hardLimit) && h <= RoundDown64(hardLimit) &&
    w * h <= softLimit * softLimit
  }

  /** The integer square root: the largest `r` with `r * r <= n`. */
  function ISqrt(n: nat): (r: nat)
    ensures r * r <= n < (r + 1) * (r + 1)
    decreases n
  {
    if n == 0 then 0
    else if n < 4 then 1
    else
      var h := ISqrt(n / 4);
      ISqrtStep(n, h);
      var c := 2 * h;
      if (c + 1) * (c + 1) <= n then c + 1 else c
  }

  /** Doubling the root of `n / 4` gives `c` with `c * c <= n < (c + 2) * (c + 2)`. */
  lemma ISqrtStep(n: nat, h: nat)
    requires h * h <= n / 4 < (h + 1) * (h + 1)
    ensures (2 * h) * (2 * h) <= n < (2 * h + 2) * (2 * h + 2)
  {
    assert (2 * h) * (2 * h) == 4 * (h * h);
    assert (2 * h + 2) * (2 * h + 2) == 4 * ((h + 1) * (h + 1));
  }

  lemma SquareMonotone(x: nat, y: nat)
    requires x * x <= y * y
    ensures x <= y
  {
    SquareStrict(x, y);
  }

  lemma ISqrtMonotone(a: nat, b: nat)
    requires a <= b
    ensures ISqrt(a) <= ISqrt(b)
  {
    var x, y := ISqrt(a), ISqrt(b);
    SquareLe(x, y + 1);
  }

  /** `|l / s - ratio|`, the aspect-ratio error of a candidate. */
  function RatioError(l: int, s: int, ratio: real): real
    requires s > 0
  {
    AbsReal(l as real / s as real - ratio)
  }

  /**
   * The short side after the side limit replaced long side `l` by `hard`. The scaled
   * short side is truncated; at most 64 it becomes 64, otherwise it is rounded to the
   * multiple of 64 below or above by the test `hard/down - ratio < ratio - hard/up`.
   * Because `hard/down >= hard/up`, that one-sided test always picks the rounding whose
   * ratio is closer to `ratio`, as a test on absolute values would.
   */
  function SideFit(l: int, s: int, hard: int, ratio: real): (short: int)
    requires 64 <= s <= l && 64 <= hard < l && hard % 64 == 0
    ensures short % 64 == 0 && 64 <= short <= hard
    ensures (s * hard) / l <= 64 ==> short == 64
    ensures (s * hard) / l > 64 ==>
      var down, up := RoundDown64((s * hard) / l), RoundUp64((s * hard) / l);
      down >= 64 && (short == down || short == up) &&
      RatioError(hard, short, ratio) <= RatioError(hard, down, ratio) &&
      RatioError(hard, short, ratio) <= RatioError(hard, up, ratio)
  {
    var scaled := (s * hard) / l;
    SideScaleBound(l, s, hard);
    if scaled <= 64 then 64 else PickRounding(hard, scaled, ratio)
  }

  /** The truncated scaled short side `s * hard / l` is at most `hard`. */
  lemma SideScaleBound(l: int, s: int, hard: int)
    requires 0 < s <= l && 0 <= hard
    ensures 0 <= (s * hard) / l <= hard
  {
    MulLe(s, l, hard);
    DivBound(s * hard, l, hard);
  }

  /** Rounds `scaled` down or up to a multiple of 64, whichever gives `hard / side` closer to `ratio`. */
  function PickRounding(hard: int, scaled: int, ratio: real): (short: int)
    requires 64 < scaled <= hard && hard % 64 == 0
    ensures short % 64 == 0 && 64 <= short <= hard
    ensures var down, up := RoundDown64(scaled), RoundUp64(scaled);
      down >= 64 && (short == down || short == up) &&
      RatioError(hard, short, ratio) <= RatioError(hard, down, ratio) &&
      RatioError(hard, short, ratio) <= RatioError(hard, up, ratio)
  {
    var down, up := RoundDown64(scaled), RoundUp64(scaled);
    RoundDownMonotone(64, scaled);
    RoundUpAtMost(scaled, hard);
    var longf := hard as real;
    CloserOfTwo(longf, down as real, up as real, ratio);
    if longf / down as real - ratio < ratio - longf / up as real then down else up
  }

  /** With `0 < down <= up`, the one-sided test of `sd_fix_resolution` picks the closer ratio. */
  lemma CloserOfTwo(longf: real, down: real, up: real, ratio: real)
    requires 0.0 < down <= up && longf > 0.0
    ensures
      var a, b := longf / down - ratio, longf / up - ratio;
      (a < -b ==> AbsReal(a) <= AbsReal(b)) && (!(a < -b) ==> AbsReal(b) <= AbsReal(a))
  {
    RealDivAntitone(longf, down, up);
  }

  /** `trunc(short * scale)` for the exact `scale = sqrt(area / (l * s))`. */
  function ScaledShort(l: int, s: int, area: int): (r: nat)
    requires l > 0 && s > 0 && area >= 0
    ensures r * r * l <= area * s < (r + 1) * (r + 1) * l
  {
    var q := (area * s) / l;
    DivFloor(area * s, l);
    ScaleBack(ISqrt(q), q, area * s, l);
    ISqrt(q)
  }

  /** Undoing the division: `r * r <= a / l < (r + 1) * (r + 1)` gives the bounds on `a`. */
  lemma ScaleBack(r: nat, q: int, a: int, l: int)
    requires l > 0 && r * r <= q < (r + 1) * (r + 1) && q * l <= a < q * l + l
    ensures r * r * l <= a < (r + 1) * (r + 1) * l
  {
    MulLe(r * r, q, l);
    MulLe(q + 1, (r + 1) * (r + 1), l);
    assert (q + 1) * l == q * l + l;
  }

  /** `trunc(long * scale)` for the exact `scale = sqrt(area / (l * s))`. */
  function ScaledLong(l: int, s: int, area: int): (r: nat)
    requires l > 0 && s > 0 && area >= 0
    ensures r * r * s <= area * l < (r + 1) * (r + 1) * s
  {
    ScaledShort(s, l, area)
  }

  /**
   * The area step for a size `l * s` above `area`. Both sides are scaled by
   * `sqrt(area / (l * s))` and truncated. If the scaled short side is at most 64, the
   * short side becomes 64 and the long side the largest multiple of 64 that fits.
   * Otherwise the floor/floor candidate may be replaced by floor/up and then by up/floor
   * (see `BestCandidate`); the up/up candidate is never tried. The result keeps the long
   * side at least the short side and at most `l`, and never exceeds `area`.
   */
  function AreaFit(l: int, s: int, area: int, ratio: real): (r: (int, int))
    requires 64 <= s <= l && s % 64 == 0 && l % 64 == 0
    requires 4096 <= area < l * s && ratio >= 1.0
    ensures r.0 % 64 == 0 && r.1 % 64 == 0 && 64 <= r.1 <= r.0 <= l && r.0 * r.1 <= area
    ensures ScaledShort(l, s, area) <= 64 ==> r == (RoundDown64(area / 64), 64)
    ensures ScaledShort(l, s, area) > 64 ==>
      r == BestCandidate(RoundDown64(ScaledLong(l, s, area)), RoundDown64(ScaledShort(l, s, area)),
                         RoundUp64(ScaledLong(l, s, area)), RoundUp64(ScaledShort(l, s, area)),
                         area, ratio)
  {
    var ns, nl := ScaledShort(l, s, area), ScaledLong(l, s, area);
    ScaledShortLeLong(l, s, area);
    ScaledBelowSide(nl, s, l, area);
    ScaledProduct(ns, nl, l, s, area);
    if ns <= 64 then
      AlignedShortSide(s);
      SmallShortFacts(l, s, area, ns);
      (RoundDown64(area / 64), 64)
    else
      RoundedCandidates(l, area, ns, nl, ratio)
  }

  /** A multiple of 64 that is at least 64 is 64 or at least 128. */
  lemma AlignedShortSide(s: int)
    requires s >= 64 && s % 64 == 0
    ensures s == 64 || s >= 128
  {
  }

  /** The rounded candidates of the area step once the scaled short side exceeds 64. */
  function RoundedCandidates(l: int, area: int, ns: int, nl: int, ratio: real): (r: (int, int))
    requires 64 < ns <= nl < l && l % 64 == 0 && ns * nl <= area && ratio >= 1.0
    ensures r.0 % 64 == 0 && r.1 % 64 == 0 && 64 <= r.1 <= r.0 <= l && r.0 * r.1 <= area
    ensures r == BestCandidate(RoundDown64(nl), RoundDown64(ns), RoundUp64(nl), RoundUp64(ns), area, ratio)
  {
    var ld, sd, su, lu := RoundDown64(nl), RoundDown64(ns), RoundUp64(ns), RoundUp64(nl);
    RoundDownMonotone(ns, nl);
    RoundDownMonotone(64, ns);
    RoundUpBelow(nl, l);
    MulBoth(sd, ns, ld, nl);
    FirstCandidateOriented(ns, ld, sd, su, ratio);
    var r := BestCandidate(ld, sd, lu, su, area, ratio);
    assert r == (ld, su) ==> su <= ld;
    CandidateBounds(ld, sd, lu, su, l, area, r);
    r
  }

  /** Integer facts about whichever candidate the comparison keeps. */
  lemma CandidateBounds(ld: int, sd: int, lu: int, su: int, l: int, area: int, r: (int, int))
    requires r == (ld, sd) || r == (ld, su) || r == (lu, sd)
    requires r != (ld, sd) ==> r.0 * r.1 < area
    requires r == (ld, su) ==> su <= ld
    requires 64 <= sd <= ld <= lu <= l && sd <= su && sd * ld <= area
    requires ld % 64 == 0 && sd % 64 == 0 && su % 64 == 0 && lu % 64 == 0
    ensures r.0 % 64 == 0 && r.1 % 64 == 0 && 64 <= r.1 <= r.0 <= l && r.0 * r.1 <= area
  {
  }

  /**
   * The candidate comparison of the area step: start from `(ld, sd)` and take
   * `(ld, su)`, then `(lu, sd)`, when its area is strictly below `area` and its ratio
   * error strictly below the best so far. The result is the first of the three with the
   * least error among those admitted.
   */
  function BestCandidate(ld: int, sd: int, lu: int, su: int, area: int, ratio: real): (r: (int, int))
    requires sd > 0 && su > 0
    ensures r == (ld, sd) || r == (ld, su) || r == (lu, sd)
    ensures r != (ld, sd) ==> r.0 * r.1 < area && RatioError(r.0, r.1, ratio) < RatioError(ld, sd, ratio)
    ensures RatioError(r.0, r.1, ratio) <= RatioError(ld, sd, ratio)
    ensures ld * su < area ==> RatioError(r.0, r.1, ratio) <= RatioError(ld, su, ratio)
    ensures lu * sd < area ==> RatioError(r.0, r.1, ratio) <= RatioError(lu, sd, ratio)
  {
    var rdiff := RatioError(ld, sd, ratio);
    var first: (int, int) :=
      if ld * su < area && RatioError(ld, su, ratio) < rdiff then (ld, su) else (ld, sd);
    var best := RatioError(first.0, first.1, ratio);
    if lu * sd < area && RatioError(lu, sd, ratio) < best then (lu, sd) else first
  }

  /**
   * The floor/up candidate only replaces floor/floor when it keeps the long side at
   * least the short side: otherwise `ld == sd`, whose ratio 1 is closer to a ratio at
   * least 1 than `ld / su < 1` is.
   */
  lemma FirstCandidateOriented(ns: int, ld: int, sd: int, su: int, ratio: real)
    requires ns > 64 && sd == RoundDown64(ns) && su == RoundUp64(ns)
    requires ld % 64 == 0 && sd <= ld && ratio >= 1.0
    ensures su > ld ==> RatioError(ld, su, ratio) >= RatioError(ld, sd, ratio)
  {
    if su > ld {
      AlignedBetween(sd, ld, su);
      RatioBelowOne(ld, su);
      RatioOne(ld);
    }
  }

  lemma RatioBelowOne(a: int, b: int)
    requires 0 <= a < b
    ensures a as real / b as real < 1.0
  {
    assert (a as real / b as real) * b as real == a as real;
  }

  lemma RatioOne(a: int)
    requires 0 < a
    ensures a as real / a as real == 1.0
  {
  }

  /** Both truncated scaled sides: `ScaledShort <= ScaledLong` when `s <= l`. */
  lemma ScaledShortLeLong(l: int, s: int, area: int)
    requires 0 < s <= l && 0 <= area
    ensures ScaledShort(l, s, area) <= ScaledLong(l, s, area)
  {
    QuotientOrder(area, s, l);
    ISqrtMonotone((area * s) / l, (area * l) / s);
  }

  lemma QuotientOrder(area: int, s: int, l: int)
    requires 0 < s <= l && 0 <= area
    ensures (area * s) / l <= area <= (area * l) / s
  {
    MulLe(s, l, area);
    DivBound(area * s, l, area);
    DivLower(area * l, s, area);
  }

  /** `r * r * d <= area * e` and `area < d * e` give `r < e`. */
  lemma ScaledBelowSide(r: nat, d: int, e: int, area: int)
    requires d > 0 && e > 0 && r * r * d <= area * e && 0 <= area < e * d
    ensures r < e
  {
    MulLt(area, e * d, e);
    assert (e * d) * e == (e * e) * d;
    MulLtCancel(r * r, e * e, d);
    SquareLe(r, e);
  }

  /** The truncated scaled sides multiply to at most `area`. */
  lemma ScaledProduct(ns: nat, nl: nat, l: int, s: int, area: int)
    requires l > 0 && s > 0 && area >= 0
    requires ns * ns * l <= area * s && nl * nl * s <= area * l
    ensures ns * nl <= area
  {
    MulBoth(ns * ns * l, area * s, nl * nl * s, area * l);
    ProductRegroup(ns, l, nl, s);
    ProductRegroup(area, s, area, l);
    MulLeCancel((ns * nl) * (ns * nl), (area * area), l * s);
    SquareMonotone(ns * nl, area);
  }

  lemma ProductRegroup(a: int, b: int, c: int, d: int)
    ensures (a * a * b) * (c * c * d) == ((a * c) * (a * c)) * (b * d)
  {
  }

  /**
   * When the scaled short side is at most 64, the long side `area / 64` rounded down
   * stays in [64, l]: the truncation gives `area * s < 65 * 65 * l`, so `area < 64 * l`.
   */
  lemma SmallShortFacts(l: int, s: int, area: int, ns: nat)
    requires 64 <= s <= l && (s == 64 || s >= 128) && 4096 <= area < l * s
    requires ns * ns * l <= area * s < (ns + 1) * (ns + 1) * l && ns <= 64
    ensures 64 <= RoundDown64(area / 64) <= l
  {
    SmallShortArea(l, s, area, ns);
    if s == 64 {
      MulLe(s, 64, l);
    } else {
      MulLe(128, s, area);
    }
    DivBound(area, 64, l);
    DivLower(area, 64, 64);
    RoundDownMonotone(64, area / 64);
  }

  lemma SmallShortArea(l: int, s: int, area: int, ns: nat)
    requires l > 0 && area * s < (ns + 1) * (ns + 1) * l && ns <= 64
    ensures area * s < 4225 * l
  {
    var x := (ns + 1) * (ns + 1);
    MulBoth(ns + 1, 65, ns + 1, 65);
    MulLe(x, 4225, l);
  }

  /**
   * `sd_fix_resolution`. The only caller passes a side limit in [64, 8192] and an area
   * limit side in [64, 2048]. The result never exceeds either limit, both sides are
   * multiples of 64 in [64, 8192], the long side goes to the width exactly for a
   * landscape request, and a request that already fits is returned unchanged.
   */
  method FixResolution(width: int, height: int, imgHardLimit: int, imgSoftLimit: int)
    returns (w: int, h: int)
    requires MinSide <= imgHardLimit <= MaxSide && MinSide <= imgSoftLimit <= MaxSoftLimit
    ensures (w, h) == Fixed(width, height, imgHardLimit, imgSoftLimit)
    ensures IsSide(w) && IsSide(h)
    ensures w <= RoundDown64(imgHardLimit) && h <= RoundDown64(imgHardLimit)
    ensures w * h <= imgSoftLimit * imgSoftLimit
    ensures Clamp(width) > Clamp(height) ==> w >= h
    ensures Clamp(width) <= Clamp(height) ==> h >= w
    ensures Fits(Clamp(width), Clamp(height), imgHardLimit, imgSoftLimit) ==>
      w == Clamp(width) && h == Clamp(height)
  {
    // sanitize the original values
    var cw, ch := Clamp(width), Clamp(height);
    var isLandscape := cw > ch;
    var longSide := if isLandscape then cw else ch;
    var shortSide := if isLandscape then ch else cw;
    var originalRatio := longSide as real / shortSide as real;
    RatioAtLeastOne(longSide, shortSide);

    var rounded := RoundDownPair(longSide, shortSide);
    longSide, shortSide := rounded.0, rounded.1;
    var hardLimit := RoundDown64(imgHardLimit);
    RoundDownMonotone(64, imgHardLimit);

    longSide, shortSide := EnforceLimits(longSide, shortSide, hardLimit, imgSoftLimit, originalRatio);

    if isLandscape {
      w, h := longSide, shortSide;
    } else {
      w, h := shortSide, longSide;
    }
    FixedKeepsFit(width, height, imgHardLimit, imgSoftLimit);
  }

  /**
   * The two limit steps of `sd_fix_resolution` on the oriented, rounded sides: the
   * per-side limit, then the area limit. Sides that already meet both pass unchanged.
   */
  method EnforceLimits(long0: int, short0: int, hardLimit: int, imgSoftLimit: int, originalRatio: real)
    returns (longSide: int, shortSide: int)
    requires 64 <= hardLimit <= MaxSide && hardLimit % 64 == 0 && MinSide <= imgSoftLimit <= MaxSoftLimit
    requires 64 <= short0 <= long0 <= MaxSide && short0 % 64 == 0 && long0 % 64 == 0
    requires originalRatio >= 1.0
    ensures (longSide, shortSide) == LimitSteps(long0, short0, hardLimit, imgSoftLimit, originalRatio)
    ensures 64 <= shortSide <= longSide <= hardLimit && shortSide % 64 == 0 && longSide % 64 == 0
    ensures longSide * shortSide <= imgSoftLimit * imgSoftLimit
    ensures long0 <= hardLimit && long0 * short0 <= imgSoftLimit * imgSoftLimit ==>
      longSide == long0 && shortSide == short0
  {
    longSide, shortSide := long0, short0;

    // enforce the per-side limit
    if longSide > hardLimit {
      shortSide := SideFit(longSide, shortSide, hardLimit, originalRatio);
      longSide := hardLimit;
    }

    // enforce the area limit
    var areaLimit := imgSoftLimit * imgSoftLimit;
    MulBoth(64, imgSoftLimit, 64, imgSoftLimit);
    if longSide * shortSide > areaLimit {
      var fitted := AreaFit(longSide, shortSide, areaLimit, originalRatio);
      longSide, shortSide := fitted.0, fitted.1;
    }
  }

  /**
   * The sides the two limit steps choose: when the long side exceeds the side limit it
   * becomes the limit and the short side is `SideFit`'s closest-ratio rounding; when the
   * sides then exceed the area, `AreaFit`'s candidate rule replaces both.
   */
  function LimitSteps(long0: int, short0: int, hardLimit: int, imgSoftLimit: int, ratio: real): (r: (int, int))
    requires 64 <= hardLimit <= MaxSide && hardLimit % 64 == 0 && MinSide <= imgSoftLimit <= MaxSoftLimit
    requires 64 <= short0 <= long0 <= MaxSide && short0 % 64 == 0 && long0 % 64 == 0
    requires ratio >= 1.0
    ensures 64 <= r.1 <= r.0 <= hardLimit && r.1 % 64 == 0 && r.0 % 64 == 0
    ensures r.0 * r.1 <= imgSoftLimit * imgSoftLimit
    ensures long0 <= hardLimit && long0 * short0 <= imgSoftLimit * imgSoftLimit ==> r == (long0, short0)
  {
    var side := if long0 > hardLimit then (hardLimit, SideFit(long0, short0, hardLimit, ratio)) else (long0, short0);
    MulBoth(64, imgSoftLimit, 64, imgSoftLimit);
    if side.0 * side.1 > imgSoftLimit * imgSoftLimit then AreaFit(side.0, side.1, imgSoftLimit * imgSoftLimit, ratio)
    else side
  }

  /**
   * The size `sd_fix_resolution` returns: the clamped request, oriented long side
   * first, rounded down to multiples of 64, passed through `LimitSteps` with the
   * original ratio, and turned back to the request's orientation.
   */
  function Fixed(width: int, height: int, imgHardLimit: int, imgSoftLimit: int): (r: (int, int))
    requires MinSide <= imgHardLimit <= MaxSide && MinSide <= imgSoftLimit <= MaxSoftLimit
    ensures IsSide(r.0) && IsSide(r.1)
    ensures r.0 <= RoundDown64(imgHardLimit) && r.1 <= RoundDown64(imgHardLimit)
    ensures r.0 * r.1 <= imgSoftLimit * imgSoftLimit
    ensures Clamp(width) > Clamp(height) ==> r.0 >= r.1
    ensures Clamp(width) <= Clamp(height) ==> r.1 >= r.0
  {
    var cw, ch := Clamp(width), Clamp(height);
    var l, s := if cw > ch then cw else ch, if cw > ch then ch else cw;
    RatioAtLeastOne(l, s);
    RoundDownMonotone(64, imgHardLimit);
    var rounded := RoundDownPair(l, s);
    var t := LimitSteps(rounded.0, rounded.1, RoundDown64(imgHardLimit), imgSoftLimit, l as real / s as real);
    if cw > ch then t else (t.1, t.0)
  }

  /** A request whose clamped sides already fit both limits comes back from `Fixed` unchanged. */
  lemma FixedKeepsFit(width: int, height: int, imgHardLimit: int, imgSoftLimit: int)
    requires MinSide <= imgHardLimit <= MaxSide && MinSide <= imgSoftLimit <= MaxSoftLimit
    ensures Fits(Clamp(width), Clamp(height), imgHardLimit, imgSoftLimit) ==>
      Fixed(width, height, imgHardLimit, imgSoftLimit) == (Clamp(width), Clamp(height))
  {
    var cw, ch := Clamp(width), Clamp(height);
    if Fits(cw, ch, imgHardLimit, imgSoftLimit) {
      FitsUnchanged(cw, ch, imgHardLimit, imgSoftLimit);
      var l, s := if cw > ch then cw else ch, if cw > ch then ch else cw;
      RatioAtLeastOne(l, s);
      RoundDownMonotone(64, imgHardLimit);
      assert RoundDownPair(l, s) == (l, s);
      assert LimitSteps(l, s, RoundDown64(imgHardLimit), imgSoftLimit, l as real / s as real) == (l, s);
    }
  }

  lemma FitsUnchanged(cw: int, ch: int, hard: int, soft: int)
    ensures Fits(cw, ch, hard, soft) ==>
      RoundDown64(cw) == cw && RoundDown64(ch) == ch &&
      cw <= RoundDown64(hard) && ch <= RoundDown64(hard) && cw * ch <= soft * soft && ch * cw <= soft * soft
  {
    if Fits(cw, ch, hard, soft) {
      FitsOriented(cw, ch, hard, soft);
    }
  }

  /** The initial rounding of both oriented sides, which keeps them ordered and in range. */
  function RoundDownPair(longSide: int, shortSide: int): (r: (int, int))
    requires 64 <= shortSide <= longSide <= MaxSide
    ensures r == (RoundDown64(longSide), RoundDown64(shortSide))
    ensures 64 <= r.1 <= r.0 <= MaxSide && r.0 % 64 == 0 && r.1 % 64 == 0
  {
    RoundDownMonotone(shortSide, longSide);
    RoundDownMonotone(64, shortSide);
    (RoundDown64(longSide), RoundDown64(shortSide))
  }

  /** A size that already fits passes both limit steps untouched. */
  lemma FitsOriented(cw: int, ch: int, hard: int, soft: int)
    requires Fits(cw, ch, hard, soft)
    ensures RoundDown64(cw) == cw && RoundDown64(ch) == ch
    ensures cw <= RoundDown64(hard) && ch <= RoundDown64(hard)
    ensures cw * ch <= soft * soft && ch * cw <= soft * soft
  {
    RoundDownAligned(cw);
    RoundDownAligned(ch);
  }

  /** The ratio of the long side to the short side is at least 1. */
  lemma RatioAtLeastOne(a: int, b: int)
    requires 0 < b <= a
    ensures a as real / b as real >= 1.0
  {
    var x := a as real / b as real;
    assert x * b as real == a as real;
  }

  /** Rounding down to 64 keeps the order of its arguments. */
  lemma RoundDownMonotone(a: int, b: int)
    requires 0 <= a <= b
    ensures RoundDown64(a) <= RoundDown64(b)
    ensures a % 64 == 0 ==> a <= RoundDown64(b)
  {
  }

  /** Rounding down a multiple of 64 leaves it unchanged. */
  lemma RoundDownAligned(n: int)
    requires n >= 0
    ensures n % 64 == 0 ==> RoundDown64(n) == n
  {
  }

  /** Rounding up something below a multiple of 64 stays at most that multiple. */
  lemma RoundUpBelow(n: int, l: int)
    requires 0 <= n < l && l % 64 == 0
    ensures RoundUp64(n) <= l
  {
  }

  /** Rounding up something at most a multiple of 64 stays at most that multiple. */
  lemma RoundUpAtMost(n: int, l: int)
    requires 0 <= n <= l && l % 64 == 0
    ensures RoundUp64(n) <= l
  {
  }

  /** Two multiples of 64 less than 64 apart are equal. */
  lemma AlignedBetween(sd: int, ld: int, su: int)
    requires sd % 64 == 0 && ld % 64 == 0 && su % 64 == 0 && sd <= ld < su <= sd + 64
    ensures ld == sd
  {
  }

  // Arithmetic facts the solver does not find unaided.

  lemma MulLe(a: int, b: int, c: int)
    requires a <= b && c >= 0
    ensures a * c <= b * c
  {
    assert b * c - a * c == (b - a) * c;
  }

  lemma MulLt(a: int, b: int, c: int)
    requires a < b && c > 0
    ensures a * c < b * c
  {
    assert b * c - a * c == (b - a) * c;
  }

  lemma MulLeCancel(p: int, q: int, d: int)
    requires d > 0
    ensures p * d <= q * d ==> p <= q
  {
    if p > q {
      MulLt(q, p, d);
    }
  }

  lemma MulLtCancel(p: int, q: int, d: int)
    requires d > 0
    ensures p * d < q * d ==> p < q
  {
    if p >= q {
      MulLe(q, p, d);
    }
  }

  lemma MulBoth(a: int, b: int, c: int, d: int)
    requires 0 <= a <= b && 0 <= c <= d
    ensures a * c <= b * d
  {
    MulLe(a, b, c);
    MulLe(c, d, b);
  }

  lemma DivFloor(a: int, d: int)
    requires d > 0
    ensures (a / d) * d <= a < (a / d) * d + d
  {
  }

  lemma DivBound(a: int, d: int, k: int)
    requires d > 0 && a <= d * k
    ensures a / d <= k
  {
    DivFloor(a, d);
    MulLeCancel(a / d, k, d);
  }

  lemma DivLower(a: int, d: int, k: int)
    requires d > 0 && k * d <= a
    ensures k <= a / d
  {
    DivFloor(a, d);
    MulLtCancel(k, a / d + 1, d);
  }

  lemma MulMod(q: int, m: int)
    requires m > 0
    ensures (q * m) % m == 0
  {
    DivFloor(q * m, m);
    var r := q * m - ((q * m) / m) * m;
    assert r == (q - (q * m) / m) * m;
    MulLtCancel(q - (q * m) / m, 1, m);
    MulLeCancel(0, q - (q * m) / m, m);
  }

  lemma SquareLe(x: int, y: int)
    requires y >= 0
    ensures x >= y ==> x * x >= y * y
  {
    if x >= y {
      MulLe(y, x, x);
      MulLe(y, x, y);
    }
  }

  lemma SquareStrict(x: int, y: int)
    requires y >= 0
    ensures x > y ==> x * x > y * y
  {
    if x > y {
      MulLt(y, x, x);
      MulLe(y, x, y);
    }
  }

  lemma RealDivAntitone(x: real, d1: real, d2: real)
    requires x > 0.0 && 0.0 < d1 <= d2
    ensures x / d1 >= x / d2
  {
    assert x / d2 * d2 == x;
    assert x / d1 * d1 == x;
  }
}
