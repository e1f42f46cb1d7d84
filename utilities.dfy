/** Numeric helpers shared by every animation of the page: `lerp`, `clamp`,
    the profile card's `pcAdjust` remap, JavaScript's `%` on numbers and the
    smoothing factor `1 - exp(-dt / tau)`, which is injected as a function. */
module Utilities {

  datatype Option<T> = None | Some(value: T)

  /** `x` lies on the closed segment between `a` and `b`, whichever is larger. */
  predicate Between(a: real, b: real, x: real) {
    (a <= x <= b) || (b <= x <= a)
  }

  function Min(a: real, b: real): real { if a <= b then a else b }

  function Max(a: real, b: real): real { if a >= b then a else b }

  /** `lerp(a, b, n)`: one step from `a` toward `b` by the fraction `n`. With a
      fraction in [0, 1] it never overshoots, and the remaining gap to `b`
      shrinks by the factor `1 - n`. */
  function Lerp(a: real, b: real, n: real): (r: real)
    ensures 0.0 <= n <= 1.0 ==> Between(a, b, r)
    ensures b - r == (1.0 - n) * (b - a)
    ensures n == 0.0 ==> r == a
    ensures n == 1.0 ==> r == b
  {
    LerpBetween(a, b, n);
    a + (b - a) * n
  }

  lemma LerpBetween(a: real, b: real, n: real)
    ensures 0.0 <= n <= 1.0 ==> Between(a, b, a + (b - a) * n)
  {
    if 0.0 <= n <= 1.0 {
      if a <= b {
        MulNonneg(b - a, n);
        MulNonneg(b - a, 1.0 - n);
        assert (b - a) * (1.0 - n) == (b - a) - (b - a) * n;
      } else {
        MulNonneg(a - b, n);
        MulNonneg(a - b, 1.0 - n);
        assert (b - a) * n == -((a - b) * n);
        assert (a - b) * (1.0 - n) == (a - b) - (a - b) * n;
      }
    }
  }

  /** `clamp(v, min, max)` / `pcClamp`: `Math.min(Math.max(v, min), max)`. */
  function Clamp(v: real, lo: real, hi: real): (r: real)
    ensures r <= hi
    ensures lo <= hi ==> lo <= r
    ensures lo <= v <= hi ==> r == v
    ensures lo <= hi && v < lo ==> r == lo
    ensures v > hi ==> r == hi
    ensures lo > hi ==> r == hi
    ensures r == v || r == lo || r == hi
  {
    Min(Max(v, lo), hi)
  }

  /** `pcAdjust` before its rounding: the linear map sending `fMin` to `tMin`
      and `fMax` to `tMax`. */
  function Remap(v: real, fMin: real, fMax: real, tMin: real, tMax: real): (r: real)
    requires fMin != fMax
    ensures v == fMin ==> r == tMin
    ensures v == fMax ==> r == tMax
    ensures fMin < fMax && fMin <= v <= fMax && tMin <= tMax ==> tMin <= r <= tMax
  {
    RemapFraction(v, fMin, fMax, tMin, tMax);
    tMin + ((tMax - tMin) * (v - fMin)) / (fMax - fMin)
  }

  lemma RemapFraction(v: real, fMin: real, fMax: real, tMin: real, tMax: real)
    requires fMin != fMax
    ensures ((tMax - tMin) * (v - fMin)) / (fMax - fMin) == (tMax - tMin) * ((v - fMin) / (fMax - fMin))
    ensures fMin < fMax && fMin <= v <= fMax ==> 0.0 <= (v - fMin) / (fMax - fMin) <= 1.0
    ensures fMin < fMax && fMin <= v <= fMax && tMin <= tMax ==>
      tMin <= tMin + ((tMax - tMin) * (v - fMin)) / (fMax - fMin) <= tMax
  {
    MulDiv(tMax - tMin, v - fMin, fMax - fMin);
    FractionInUnit(v, fMin, fMax);
    LerpBetween(tMin, tMax, (v - fMin) / (fMax - fMin));
  }

  lemma FractionInUnit(v: real, fMin: real, fMax: real)
    requires fMin != fMax
    ensures fMin < fMax && fMin <= v <= fMax ==> 0.0 <= (v - fMin) / (fMax - fMin) <= 1.0
  {
    if fMin < fMax && fMin <= v <= fMax {
      DivUnitClosed(v - fMin, fMax - fMin);
    }
  }

  /** `Math.trunc`: truncation toward zero of a real. */
  function Trunc(x: real): (r: int)
    ensures 0.0 <= x ==> 0 <= r && r as real <= x < r as real + 1.0
    ensures x < 0.0 ==> r <= 0 && r as real - 1.0 < x <= r as real
  {
    if x >= 0.0 then x.Floor else -((-x).Floor)
  }

  /** `Math.ceil` of a real. */
  function Ceil(x: real): (r: int)
    ensures x <= r as real < x + 1.0
  {
    -((-x).Floor)
  }

  /** JavaScript's `x % m` on numbers for a positive divisor: the remainder of
      truncating division, which keeps the sign of `x` and differs from `x`
      by a whole multiple of `m` (so it has the same Euclidean remainder). */
  function JsRem(x: real, m: real): (r: real)
    requires m > 0.0
    ensures 0.0 <= x ==> 0.0 <= r < m
    ensures x < 0.0 ==> -m < r <= 0.0
    ensures Mod(r, m) == Mod(x, m)
  {
    TruncRemainder(x, m);
    var t := Trunc(x / m);
    var r := x - m * t as real;
    var j := (x / m).Floor;
    assert x == Mod(x, m) + j as real * m;
    assert r == Mod(x, m) + (j - t) as real * m;
    ModUnique(r, m, Mod(x, m), j - t);
    r
  }

  lemma TruncRemainder(x: real, m: real)
    requires m > 0.0
    ensures 0.0 <= x ==> 0.0 <= x - m * Trunc(x / m) as real < m
    ensures x < 0.0 ==> -m < x - m * Trunc(x / m) as real <= 0.0
  {
    if 0.0 <= x {
      RemBelow(x, m, x / m, Trunc(x / m) as real);
    } else {
      DivSign(x, m);
      RemAbove(x, m, x / m, Trunc(x / m) as real);
    }
  }

  lemma RemBelow(x: real, m: real, q: real, t: real)
    requires m > 0.0 && q == x / m && 0.0 <= q - t < 1.0
    ensures 0.0 <= x - m * t < m
  {
    var f := q - t;
    assert x == q * m;
    FractionTimes(m, f);
    assert x - m * t == m * f;
  }

  lemma RemAbove(x: real, m: real, q: real, t: real)
    requires m > 0.0 && q == x / m && 0.0 <= t - q < 1.0
    ensures -m < x - m * t <= 0.0
  {
    var g := t - q;
    assert x == q * m;
    FractionTimes(m, g);
    assert x - m * t == -(m * g);
  }

  lemma FractionTimes(m: real, f: real)
    requires m > 0.0 && 0.0 <= f < 1.0
    ensures 0.0 <= m * f < m
  {
    MulNonneg(m, f);
    MulStrict(m, f, 1.0);
  }

  /** The Euclidean remainder: the value in [0, m) that differs from `x` by a
      whole multiple of `m`. */
  function Mod(x: real, m: real): (r: real)
    requires m > 0.0
    ensures 0.0 <= r < m
  {
    RemBelow(x, m, x / m, (x / m).Floor as real);
    x - m * (x / m).Floor as real
  }

  /** That value is unique: any `y` in [0, m) with `x = y + k * m` is `Mod(x, m)`. */
  lemma ModUnique(x: real, m: real, y: real, k: int)
    requires m > 0.0 && 0.0 <= y < m
    requires x == y + k as real * m
    ensures Mod(x, m) == y
  {
    DivUnit(y, m);
    DivShift(y, m, k);
    assert (x / m).Floor == k;
  }

  /** The guarded wrap `((x % m) + m) % m` of the marquee lands on the
      Euclidean remainder, so it lies in [0, m) for every sign of `x`. */
  function WrapMod(x: real, m: real): (r: real)
    requires m > 0.0
    ensures 0.0 <= r < m
    ensures r == Mod(x, m)
  {
    var r1 := JsRem(x, m);
    var r2 := JsRem(r1 + m, m);
    ModShift(r1, m);
    ModUnique(r2, m, r2, 0);
    r2
  }

  /** Adding one period does not change the Euclidean remainder. */
  lemma ModShift(y: real, m: real)
    requires m > 0.0
    ensures Mod(y + m, m) == Mod(y, m)
  {
    var j := (y / m).Floor;
    assert y == Mod(y, m) + j as real * m;
    ModUnique(y + m, m, Mod(y, m), j + 1);
  }

  /** The smoothing factor `k = 1 - exp(-dt / tau)` of the tilt engine and the
      marquee, as a function of (dt, tau): it lies in [0, 1] for every
      non-negative elapsed time and is 0 when no time has elapsed. */
  ghost predicate IsBlend(blend: (real, real) -> real) {
    && (forall dt, tau :: 0.0 <= dt && 0.0 < tau ==> 0.0 <= blend(dt, tau) <= 1.0)
    && (forall tau :: 0.0 < tau ==> blend(0.0, tau) == 0.0)
  }

  /** Follow factors of the per-frame `lerp` animations: data-tilt cards,
      magnetic buttons and the cursor glow. */
  const TiltFollow: real := 0.08
  const MagneticFollow: real := 0.1
  const GlowFollow: real := 0.06

  function Pow(x: real, m: nat): real {
    if m == 0 then 1.0 else x * Pow(x, m - 1)
  }

  /** Position after `m` frames of `cur = lerp(cur, target, n)` with the target held. */
  function FollowFrames(a: real, b: real, n: real, m: nat): real {
    if m == 0 then a else Lerp(FollowFrames(a, b, n, m - 1), b, n)
  }

  /** After `m` frames the gap to the target is `(1 - n)^m` times the first gap. */
  lemma {:induction false} FollowFramesGap(a: real, b: real, n: real, m: nat)
    ensures b - FollowFrames(a, b, n, m) == Pow(1.0 - n, m) * (b - a)
  {
    if m > 0 {
      FollowFramesGap(a, b, n, m - 1);
      var g := FollowFrameGap(a, b, n, m);
      GapStep(1.0 - n, Pow(1.0 - n, m - 1), g, b - a);
    }
  }

  /** One more frame multiplies the gap to the target by `1 - n`. */
  lemma FollowFrameGap(a: real, b: real, n: real, m: nat) returns (g: real)
    requires m > 0
    ensures g == b - FollowFrames(a, b, n, m - 1)
    ensures b - FollowFrames(a, b, n, m) == (1.0 - n) * g
  {
    g := b - FollowFrames(a, b, n, m - 1);
  }

  /** A gap that is `p` times the first, scaled by `c`, is `c * p` times the first. */
  lemma GapStep(c: real, p: real, g: real, e: real)
    requires g == p * e
    ensures c * g == (c * p) * e
  {
    MulAssoc(c, p, e);
  }

  /** With a follow factor in [0, 1] no number of frames carries the value past
      its target, and none moves it further away. */
  lemma {:induction false} FollowFramesNoOvershoot(a: real, b: real, n: real, m: nat)
    requires 0.0 <= n <= 1.0
    ensures Between(a, b, FollowFrames(a, b, n, m))
  {
    if m > 0 {
      FollowFramesNoOvershoot(a, b, n, m - 1);
    }
  }

  /** The three constant follow factors are fractions, so each of those
      animations approaches its target without overshoot. */
  lemma FollowersNoOvershoot(a: real, b: real, m: nat)
    ensures Between(a, b, FollowFrames(a, b, TiltFollow, m))
    ensures Between(a, b, FollowFrames(a, b, MagneticFollow, m))
    ensures Between(a, b, FollowFrames(a, b, GlowFollow, m))
  {
    FollowFramesNoOvershoot(a, b, TiltFollow, m);
    FollowFramesNoOvershoot(a, b, MagneticFollow, m);
    FollowFramesNoOvershoot(a, b, GlowFollow, m);
  }

  // Facts of real arithmetic the solver does not find on its own.

  lemma MulNonneg(x: real, y: real)
    requires x >= 0.0 && y >= 0.0
    ensures x * y >= 0.0
  {
  }

  lemma MulStrict(x: real, y: real, z: real)
    requires x > 0.0 && y < z
    ensures x * y < x * z
  {
    assert x * (z - y) > 0.0;
    assert x * (z - y) == x * z - x * y;
  }

  lemma MulDiv(x: real, y: real, z: real)
    requires z != 0.0
    ensures x * y / z == x * (y / z)
  {
  }

  lemma DivUnit(y: real, m: real)
    requires m > 0.0 && 0.0 <= y < m
    ensures 0.0 <= y / m < 1.0
  {
    var q := y / m;
    assert q * m == y;
    if q < 0.0 { MulStrict(m, q, 0.0); }
    if q >= 1.0 { MulNonneg(m, q - 1.0); }
  }

  lemma MulAssoc(x: real, y: real, z: real)
    ensures x * (y * z) == (x * y) * z
  {
  }

  lemma DivShift(y: real, m: real, k: int)
    requires m > 0.0
    ensures (y + k as real * m) / m == y / m + k as real
  {
  }

  lemma DivSign(x: real, m: real)
    requires m > 0.0 && x < 0.0
    ensures x / m < 0.0
  {
    var q := x / m;
    assert q * m == x;
    if q >= 0.0 { MulNonneg(q, m); }
  }

  lemma DivUnitClosed(y: real, m: real)
    requires m > 0.0 && 0.0 <= y <= m
    ensures 0.0 <= y / m <= 1.0
  {
    if y < m { DivUnit(y, m); }
  }

  // Integer division facts

  lemma DivMod(a: int, n: int)
    requires n > 0
    ensures a == (a / n) * n + a % n && 0 <= a % n < n
  {
  }

  lemma MulSucc(q: int, n: int)
    ensures (q + 1) * n == q * n + n
  {
  }

  /** The remainder is the unique one: `m = q * n + r` with `0 <= r < n`
      gives `m % n == r`. */
  lemma ModOf(m: int, n: int, q: int, r: int)
    requires n > 0 && 0 <= r < n && m == q * n + r
    ensures m % n == r
  {
    var d := q - m / n;
    assert d * n == m % n - r;
  }
}
