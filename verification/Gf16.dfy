/**
  The 16-bit float GF16: sign, 6 exponent bits with bias 31, 9 mantissa bits,
  round to nearest even, no subnormals.  Arithmetic is over exact reals, and
  the floating-point estimate of the exponent is any integer off by at most one.
 */
module Gf16 {
  import opened Reals

  /** 2^e. */
  function Pow2(e: int): (p: real)
    ensures p > 0.0
    decreases if e < 0 then -e else e
  {
    if e == 0 then 1.0 else if e > 0 then 2.0 * Pow2(e - 1) else Pow2(e + 1) / 2.0
  }

  lemma Pow2Next(e: int)
    ensures Pow2(e + 1) == 2.0 * Pow2(e)
  {
  }

  lemma {:induction false} Pow2Mono(a: int, b: int)
    requires a <= b
    ensures Pow2(a) <= Pow2(b)
    decreases b - a
  {
    if a < b {
      Pow2Mono(a, b - 1);
      Pow2Next(b - 1);
    }
  }

  lemma Pow2Strict(a: int, b: int)
    requires Pow2(a) < Pow2(b)
    ensures a < b
  {
    if b <= a {
      Pow2Mono(b, a);
    }
  }

  lemma Pow2Nine(e: int)
    ensures Pow2(e) == 512.0 * Pow2(e - 9)
  {
    Pow2Next(e - 9); Pow2Next(e - 8); Pow2Next(e - 7);
    Pow2Next(e - 6); Pow2Next(e - 5); Pow2Next(e - 4);
    Pow2Next(e - 3); Pow2Next(e - 2); Pow2Next(e - 1);
  }

  // ---------------------------------------------------------------- the grid of magnitudes

  const INF: nat := 63 * 512
  const MIN_NORMAL: nat := 512

  /** The magnitude of the pattern `k` (sign bit cleared), infinity standing at 2^32. */
  function Mag(k: nat): (v: real)
    ensures v >= 0.0
  {
    if k < MIN_NORMAL then 0.0 else Times(512 + k % 512, Pow2(k / 512 - 40))
  }

  /** The magnitude as the format defines it: 2^(e - 31) (1 + m / 512). */
  lemma MagFormula(k: nat)
    requires k >= MIN_NORMAL
    ensures Mag(k) == Pow2(k / 512 - 31) * (1.0 + (k % 512) as real / 512.0)
  {
    var u, m := Pow2(k / 512 - 40), (k % 512) as real;
    Pow2Nine(k / 512 - 31);
    TimesIsProduct(512 + k % 512, u);
    assert (512.0 * u) * (1.0 + m / 512.0) == (512.0 + m) * u;
  }

  /** Distance to the next magnitude. */
  function Ulp(k: nat): (u: real)
    ensures u > 0.0
  {
    Pow2(k / 512 - 40)
  }

  lemma MagNext(k: nat)
    requires k >= MIN_NORMAL
    ensures Mag(k + 1) == Mag(k) + Ulp(k)
  {
    var u, m := Ulp(k), k % 512;
    if m < 511 {
      assert (k + 1) / 512 == k / 512 && (k + 1) % 512 == m + 1;
    } else {
      assert (k + 1) / 512 == k / 512 + 1 && (k + 1) % 512 == 0;
      Pow2Next(k / 512 - 40);
      TimesIsProduct(512 + (k + 1) % 512, 2.0 * u);
      TimesIsProduct(513 + m, u);
    }
  }

  lemma {:induction false} MagMono(i: nat, j: nat)
    requires i <= j
    ensures Mag(i) <= Mag(j)
    ensures MIN_NORMAL <= i < j ==> Mag(i) < Mag(j)
    decreases j
  {
    if i < j && j > MIN_NORMAL {
      MagMono(i, j - 1);
      MagNext(j - 1);
    }
  }

  /** Inside an octave the magnitudes are evenly spaced. */
  lemma MagInOctave(e: nat, m: nat)
    requires e >= 1 && m <= 512
    ensures Mag(512 * e + m) == Times(512 + m, Pow2(e - 40))
  {
    if m == 512 {
      assert (512 * e + m) / 512 == e + 1 && (512 * e + m) % 512 == 0;
      Pow2Next(e - 40);
      TimesIsProduct(512 + (512 * e + m) % 512, Pow2(e - 39));
      TimesIsProduct(512 + m, Pow2(e - 40));
    } else {
      assert (512 * e + m) / 512 == e && (512 * e + m) % 512 == m;
    }
  }

  // ---------------------------------------------------------------- the code

  /** The estimate of `frexp`'s exponent is within one of the truth. */
  predicate Estimate(ax: real, est: int) { Pow2(est - 1) <= ax < Pow2(est + 2) }

  /** Mantissa and exponent, with the one-step correction. */
  function Frexp(ax: real, est: int): (r: (real, int))
    requires Estimate(ax, est)
    ensures Normalised(ax, r.0, r.1)
  {
    var mant := ax / Pow2(est);
    FrexpCorrects(ax, est, mant);
    if mant >= 2.0 then (mant / 2.0, est + 1)
    else if mant < 1.0 then (mant * 2.0, est - 1)
    else (mant, est)
  }

  lemma FrexpFacts(ax: real, est: int, mant: real)
    requires Estimate(ax, est) && mant == ax / Pow2(est)
    ensures 0.5 <= mant < 4.0 && ax == mant * Pow2(est)
    ensures ax == (mant / 2.0) * Pow2(est + 1) && ax == (mant * 2.0) * Pow2(est - 1)
  {
    Pow2Next(est); Pow2Next(est + 1); Pow2Next(est - 1);
    QuotientRange(ax, Pow2(est), mant);
    Reassociate(mant, Pow2(est), Pow2(est + 1), Pow2(est - 1));
  }

  /** One correction step suffices for an estimate off by at most one. */
  lemma FrexpCorrects(ax: real, est: int, mant: real)
    requires Estimate(ax, est) && mant == ax / Pow2(est)
    ensures mant >= 2.0 ==> Normalised(ax, mant / 2.0, est + 1)
    ensures mant < 1.0 ==> Normalised(ax, mant * 2.0, est - 1)
    ensures 1.0 <= mant < 2.0 ==> Normalised(ax, mant, est)
  {
    FrexpFacts(ax, est, mant);
    Halved(mant);
  }

  lemma Halved(mant: real)
    ensures 2.0 <= mant < 4.0 ==> 1.0 <= mant / 2.0 < 2.0
    ensures 0.5 <= mant < 1.0 ==> 1.0 <= mant * 2.0 < 2.0
  {
  }

  lemma QuotientRange(ax: real, p: real, q: real)
    requires p > 0.0 && q == ax / p && p / 2.0 <= ax < 4.0 * p
    ensures q * p == ax && 0.5 <= q < 4.0
  {
    assert q * p == ax;
    if q < 0.5 {
      ScaleLess(q, 0.5, p);
    } else if q >= 4.0 {
      ScaleLess(4.0, q, p);
    }
  }

  lemma Reassociate(q: real, p: real, twice: real, half: real)
    requires twice == 2.0 * p && p == 2.0 * half
    ensures (q / 2.0) * twice == q * p && (q * 2.0) * half == q * p
  {
  }

  lemma ScaleLess(a: real, b: real, u: real)
    requires u > 0.0 && a <= b
    ensures a * u <= b * u
    ensures a < b ==> a * u < b * u
  {
    var d := b - a;
    assert b * u == a * u + d * u;
    if d > 0.0 {
      assert d * u > 0.0;
    }
  }

  /** The mantissa rounded to nine bits, ties to even; 512 means a carry into the exponent. */
  function RoundMantissa(mant: real): (m: nat)
    requires 1.0 <= mant < 2.0
    ensures m <= 512
  {
    var scaled := (mant - 1.0) * 512.0;
    var m := scaled.Floor;
    var rem := scaled - m as real;
    if rem > 0.5 || (rem == 0.5 && m % 2 == 1) then m + 1 else m
  }

  /** The part of `encode` after the overflow guard. */
  function EncodeRest(ax: real, est: int): (k: nat)
    requires ax > 0.0 && Estimate(ax, est)
    ensures k <= INF
  {
    var (mant, exp) := Frexp(ax, est);
    if exp < -30 then (if ax > Pow2(-30) * 0.5 then MIN_NORMAL else 0)
    else
      var m := RoundMantissa(mant);
      var e := if m == 512 then exp + 32 else exp + 31;
      if e >= 63 then INF else 512 * e + (if m == 512 then 0 else m)
  }

  /** `encode` on a positive finite magnitude. */
  function EncodeMag(ax: real, est: int): (k: nat)
    requires ax > 0.0 && Estimate(ax, est)
    ensures k <= INF
  {
    if ax > Pow2(31) * (1.0 + 511.0 / 512.0) * (1.0 + 1.0 / 1024.0) then INF else EncodeRest(ax, est)
  }

  /** `ax` is `mant` times 2^`exp`, with the mantissa in [1, 2). */
  ghost predicate Normalised(ax: real, mant: real, exp: int) {
    1.0 <= mant < 2.0 && ax == mant * Pow2(exp)
  }

  lemma NormalisedRange(ax: real, mant: real, exp: int)
    requires Normalised(ax, mant, exp)
    ensures Pow2(exp) <= ax < Pow2(exp + 1)
  {
    Pow2Next(exp);
    ScaleLess(1.0, mant, Pow2(exp));
    ScaleLess(mant, 2.0, Pow2(exp));
  }

  lemma NormalisedUnique(ax: real, m: real, e: int, m': real, e': int)
    requires Normalised(ax, m, e) && Normalised(ax, m', e')
    ensures m == m' && e == e'
  {
    NormalisedRange(ax, m, e);
    NormalisedRange(ax, m', e');
    Pow2Strict(e, e' + 1);
    Pow2Strict(e', e + 1);
    SameQuotient(m, m', Pow2(e));
  }

  /** The one-step correction makes the estimate irrelevant. */
  lemma FrexpUnique(ax: real, est: int, est': int)
    requires Estimate(ax, est) && Estimate(ax, est')
    ensures Frexp(ax, est) == Frexp(ax, est')
  {
    var f, f' := Frexp(ax, est), Frexp(ax, est');
    NormalisedUnique(ax, f.0, f.1, f'.0, f'.1);
  }

  lemma SameQuotient(a: real, b: real, u: real)
    requires u > 0.0 && a * u == b * u
    ensures a == b
  {
    if a < b {
      ScaleLess(a, b, u);
    } else if b < a {
      ScaleLess(b, a, u);
    }
  }

  /** Every positive real has an estimate. */
  lemma {:induction false} EstimateAbove(ax: real, e: int, n: nat) returns (est: int)
    requires ax >= Pow2(e) && ax < Pow2(e) * (n + 1) as real
    ensures Estimate(ax, est)
    decreases n
  {
    Pow2Next(e - 1); Pow2Next(e); Pow2Next(e + 1);
    if ax < Pow2(e + 2) {
      est := e;
    } else {
      var p := Pow2(e);
      assert p * (n + 1) as real > 4.0 * p;
      assert n >= 1 by {
        if n == 0 {
          assert false;
        }
      }
      ScaleLess((n + 1) as real, 2.0 * ((n - 1) + 1) as real, p);
      assert (2.0 * p) * ((n - 1) + 1) as real == 2.0 * ((n - 1) + 1) as real * p;
      est := EstimateAbove(ax, e + 1, n - 1);
    }
  }

  lemma {:induction false} EstimateBelow(ax: real, n: nat) returns (est: int)
    requires ax > 0.0 && ax * (n + 1) as real >= 1.0
    ensures Estimate(ax, est)
    decreases n
  {
    if ax >= 1.0 {
      assert Pow2(0) == 1.0;
      est := EstimateAbove(ax, 0, ax.Floor);
    } else {
      assert ax * (n + 1) as real == ax * n as real + ax;
      assert n > 0;
      assert (2.0 * ax) * ((n - 1) + 1) as real == ax * n as real + ax * n as real;
      assert ax * n as real >= ax * 1.0 by { assert ax * (n as real - 1.0) >= 0.0; }
      var e := EstimateBelow(2.0 * ax, n - 1);
      est := e - 1;
      Pow2Next(est - 1);
      Pow2Next(est + 2);
    }
  }

  /** Every positive real has an estimate, so the theorems below speak about all of them. */
  lemma EstimateExists(ax: real)
    requires ax > 0.0
    ensures exists est :: Estimate(ax, est)
  {
    var q := 1.0 / ax;
    assert q * ax == 1.0 && q > 0.0;
    assert (q.Floor + 1) as real > q;
    assert ax * (q.Floor + 1) as real >= ax * q by { ScaleLess(q, (q.Floor + 1) as real, ax); }
    var est := EstimateBelow(ax, q.Floor);
  }

  // ---------------------------------------------------------------- rounding

  function Dist(x: real, y: real): real { if x < y then y - x else x - y }

  /** Of the patterns up to `top`, `k` is a nearest to `ax`, and an even one if another magnitude is just as near. */
  ghost predicate NearestUpTo(top: nat, ax: real, k: nat) {
    && k <= top
    && forall j: nat | j <= top ::
         && Dist(ax, Mag(k)) <= Dist(ax, Mag(j))
         && (Dist(ax, Mag(k)) == Dist(ax, Mag(j)) && Mag(k) != Mag(j) ==> k % 2 == 0)
  }

  ghost predicate NearestEven(ax: real, k: nat) {
    NearestUpTo(INF, ax, k)
  }

  /** Neighbouring patterns. */
  predicate Adjacent(lo: nat, hi: nat) {
    (lo == 0 && hi == MIN_NORMAL) || (MIN_NORMAL <= lo && hi == lo + 1)
  }

  /** The nearer of two neighbours around `ax` is nearest of all. */
  lemma FromBracket(ax: real, lo: nat, hi: nat, k: nat)
    requires Adjacent(lo, hi) && hi <= INF && Mag(lo) <= ax <= Mag(hi)
    requires k == lo || k == hi
    requires k == lo ==> ax - Mag(lo) <= Mag(hi) - ax && (ax - Mag(lo) == Mag(hi) - ax ==> lo % 2 == 0)
    requires k == hi ==> ax - Mag(lo) >= Mag(hi) - ax && (ax - Mag(lo) == Mag(hi) - ax ==> hi % 2 == 0)
    ensures NearestEven(ax, k)
  {
    forall j: nat | j <= INF
      ensures Dist(ax, Mag(k)) <= Dist(ax, Mag(j))
      ensures Dist(ax, Mag(k)) == Dist(ax, Mag(j)) && Mag(k) != Mag(j) ==> k % 2 == 0
    {
      if j >= hi {
        MagMono(hi, j);
      } else if lo > 0 {
        MagMono(j, lo);
      }
    }
  }

  /** Beyond the top of the grid, the top is nearest. */
  lemma FromTop(ax: real, top: nat)
    requires top == INF && ax >= Mag(top)
    ensures NearestEven(ax, top)
  {
    forall j: nat | j <= INF
      ensures Mag(j) <= Mag(top)
    {
      MagMono(j, top);
    }
  }

  /** `ax` lies between `lv` and `hv`, `rem` of the way up as far as rounding is concerned. */
  ghost predicate Between(ax: real, lv: real, hv: real, rem: real) {
    && lv <= ax <= hv
    && (rem <= 0.5 <==> ax - lv <= hv - ax)
    && (rem == 0.5 <==> ax - lv == hv - ax)
  }

  lemma RoundMantissaIs(mant: real, m: nat, rem: real)
    requires 1.0 <= mant < 2.0 && m == ((mant - 1.0) * 512.0).Floor && rem == (mant - 1.0) * 512.0 - m as real
    ensures m <= 511 && 0.0 <= rem < 1.0
    ensures RoundMantissa(mant) == if rem > 0.5 || (rem == 0.5 && m % 2 == 1) then m + 1 else m
  {
  }

  lemma ScaledBelow(a: real, b: real, u: real, x: real, y: real)
    requires u > 0.0 && a < b && x == a * u && y == b * u
    ensures x < y
  {
    ScaleLess(a, b, u);
  }

  lemma HalfScale(rem: real, u: real, d: real)
    requires u > 0.0 && 0.0 <= rem < 1.0 && d == rem * u
    ensures 0.0 <= d < u && (rem <= 0.5 <==> d <= 0.5 * u) && (rem == 0.5 <==> d == 0.5 * u)
  {
    ScaledBelow(rem, 1.0, u, d, u);
    if rem > 0.0 {
      ScaledBelow(0.0, rem, u, 0.0, d);
    }
    var h := 0.5 * u;
    if rem < 0.5 {
      ScaledBelow(rem, 0.5, u, d, h);
    } else if rem > 0.5 {
      ScaledBelow(0.5, rem, u, h, d);
    }
  }

  lemma Assemble(mant: real, u: real, m: real, rem: real)
    requires mant * 512.0 == 512.0 + m + rem
    ensures mant * (512.0 * u) == (512.0 + m) * u + rem * u
  {
    assert mant * (512.0 * u) == (mant * 512.0) * u;
  }

  lemma OctaveSum(mant: real, p: real, u: real, m: nat, rem: real)
    requires p == 512.0 * u && rem == (mant - 1.0) * 512.0 - m as real
    ensures mant * p == Times(512 + m, u) + rem * u
  {
    TimesIsProduct(512 + m, u);
    assert (512 + m) as real == 512.0 + m as real;
    Assemble(mant, u, m as real, rem);
  }

  lemma BetweenOf(ax: real, lv: real, hv: real, d: real, rem: real)
    requires ax == lv + d && 0.0 <= d <= hv - lv
    requires (rem <= 0.5 <==> d <= 0.5 * (hv - lv)) && (rem == 0.5 <==> d == 0.5 * (hv - lv))
    ensures Between(ax, lv, hv, rem)
  {
  }

  /** How far `ax` is above the lower of its neighbours. */
  lemma Residue(ax: real, mant: real, p: real, u: real, m: nat, rem: real) returns (d: real)
    requires ax == mant * p && p == 512.0 * u && u > 0.0
    requires 0.0 <= rem < 1.0 && rem == (mant - 1.0) * 512.0 - m as real
    ensures ax == Times(512 + m, u) + d && 0.0 <= d < u
    ensures (rem <= 0.5 <==> d <= 0.5 * u) && (rem == 0.5 <==> d == 0.5 * u)
  {
    d := rem * u;
    OctaveSum(mant, p, u, m, rem);
    HalfScale(rem, u, d);
  }

  lemma OctaveBetween(ax: real, mant: real, exp: int, m: nat, rem: real)
    requires Normalised(ax, mant, exp) && 0.0 <= rem < 1.0 && rem == (mant - 1.0) * 512.0 - m as real
    ensures Between(ax, Times(512 + m, Pow2(exp - 9)), Times(513 + m, Pow2(exp - 9)), rem)
  {
    Pow2Nine(exp);
    var d := Residue(ax, mant, Pow2(exp), Pow2(exp - 9), m, rem);
    assert Times(513 + m, Pow2(exp - 9)) == Times(512 + m, Pow2(exp - 9)) + Pow2(exp - 9);
    BetweenOf(ax, Times(512 + m, Pow2(exp - 9)), Times(513 + m, Pow2(exp - 9)), d, rem);
  }

  lemma OctaveIndex(e: nat, m: nat)
    requires 1 <= e <= 62 && m <= 511
    ensures (512 * e + m) % 2 == m % 2 && MIN_NORMAL <= 512 * e + m < INF
  {
  }

  lemma OctaveBracket(ax: real, e: nat, m: nat, rem: real, u: real)
    requires e >= 1 && m <= 511 && u == Pow2(e - 40)
    requires Between(ax, Times(512 + m, u), Times(513 + m, u), rem)
    ensures Between(ax, Mag(512 * e + m), Mag(512 * e + m + 1), rem)
  {
    MagInOctave(e, m);
    MagInOctave(e, m + 1);
  }

  lemma BracketRounds(ax: real, lo: nat, rem: real)
    requires MIN_NORMAL <= lo < INF && Between(ax, Mag(lo), Mag(lo + 1), rem)
    ensures NearestEven(ax, if rem > 0.5 || (rem == 0.5 && lo % 2 == 1) then lo + 1 else lo)
  {
    FromBracket(ax, lo, lo + 1, if rem > 0.5 || (rem == 0.5 && lo % 2 == 1) then lo + 1 else lo);
  }

  /** Rounding to an integer, ties to even, picks the right neighbour in the octave. */
  lemma OctaveRounds(ax: real, exp: int, m: nat, rem: real, r: nat)
    requires -30 <= exp <= 31 && m <= 511
    requires Between(ax, Times(512 + m, Pow2(exp - 9)), Times(513 + m, Pow2(exp - 9)), rem)
    requires r == if rem > 0.5 || (rem == 0.5 && m % 2 == 1) then m + 1 else m
    ensures NearestEven(ax, 512 * (exp + 31) + r)
  {
    var e := exp + 31;
    OctaveBracket(ax, e, m, rem, Pow2(exp - 9));
    OctaveIndex(e, m);
    BracketRounds(ax, 512 * e + m, rem);
  }

  /** The first magnitude of an octave is a power of two. */
  lemma OctaveStart(k: nat, e: nat)
    requires k == 512 * e && e >= 1
    ensures Mag(k) == Pow2(e - 31)
  {
    assert k / 512 == e && k % 512 == 0;
    TimesIsProduct(512 + k % 512, Pow2(e - 40));
    Pow2Nine(e - 31);
  }

  /** Below the smallest normal. */
  lemma TinyRounds(ax: real, least: nat)
    requires 0.0 < ax < Pow2(-30) && least == MIN_NORMAL
    ensures NearestEven(ax, if ax > Pow2(-30) * 0.5 then least else 0)
  {
    OctaveStart(least, 1);
    FromBracket(ax, 0, least, if ax > Pow2(-30) * 0.5 then least else 0);
  }

  lemma TopMagnitude(top: nat)
    requires top == INF
    ensures Mag(top) == Pow2(32)
  {
    OctaveStart(top, 63);
  }

  lemma UlpBelowTop(top: nat)
    requires top == INF
    ensures Ulp(top - 1) == Pow2(22)
  {
    assert (top - 1) / 512 == 62;
  }

  lemma OctaveCase(ax: real, mant: real, exp: int)
    requires Normalised(ax, mant, exp) && -30 <= exp <= 31
    ensures NearestEven(ax, 512 * (exp + 31) + RoundMantissa(mant))
  {
    var m := ((mant - 1.0) * 512.0).Floor;
    var rem := (mant - 1.0) * 512.0 - m as real;
    RoundMantissaIs(mant, m, rem);
    OctaveBetween(ax, mant, exp, m, rem);
    OctaveRounds(ax, exp, m, rem, RoundMantissa(mant));
  }

  lemma RestInOctave(ax: real, est: int)
    requires ax > 0.0 && Estimate(ax, est) && -30 <= Frexp(ax, est).1 <= 31
    ensures EncodeRest(ax, est) == 512 * (Frexp(ax, est).1 + 31) + RoundMantissa(Frexp(ax, est).0)
  {
  }

  lemma RestRounds(ax: real, est: int)
    requires ax > 0.0 && Estimate(ax, est)
    ensures NearestEven(ax, EncodeRest(ax, est))
  {
    var (mant, exp) := Frexp(ax, est);
    NormalisedRange(ax, mant, exp);
    if exp < -30 {
      Pow2Mono(exp + 1, -30);
      var least := MIN_NORMAL;
      TinyRounds(ax, least);
    } else if exp <= 31 {
      RestInOctave(ax, est);
      OctaveCase(ax, mant, exp);
    } else {
      Pow2Mono(32, exp);
      var top := INF;
      TopMagnitude(top);
      FromTop(ax, top);
    }
  }

  // ---------------------------------------------------------------- thresholds

  /** Choosing the nearest of `v`, `lv` and `hv`, the upper one on a tie. */
  lemma UpperChoice(ax: real, v: real, lv: real, hv: real)
    requires lv < hv && (v <= lv || v == hv)
    requires Dist(ax, v) <= Dist(ax, lv) && Dist(ax, v) <= Dist(ax, hv)
    requires v == lv ==> Dist(ax, lv) != Dist(ax, hv)
    ensures v == hv <==> ax >= (lv + hv) / 2.0
  {
  }

  /** Only the pattern just below the top has the last finite magnitude. */
  lemma LastFinite(k: nat, top: nat)
    requires MIN_NORMAL + 2 <= top && k < top
    ensures Mag(k) <= Mag(top - 1) < Mag(top) && (Mag(k) == Mag(top - 1) ==> k == top - 1)
  {
    MagMono(top - 1, top);
    if k < top - 1 {
      MagMono(k, top - 2);
      MagMono(top - 2, top - 1);
    }
  }

  lemma TopChoice(ax: real, k: nat, top: nat)
    requires NearestUpTo(top, ax, k) && top % 2 == 0 && MIN_NORMAL + 2 <= top
    ensures k == top <==> ax >= (Mag(top - 1) + Mag(top)) / 2.0
  {
    assert Dist(ax, Mag(k)) <= Dist(ax, Mag(top - 1)) && Dist(ax, Mag(k)) <= Dist(ax, Mag(top));
    LastFinite(if k < top then k else 0, top);
    UpperChoice(ax, Mag(k), Mag(top - 1), Mag(top));
  }

  /** A nearest pattern is infinite exactly from half a unit below 2^32 on. */
  lemma InfThreshold(ax: real, k: nat, top: nat)
    requires NearestEven(ax, k) && top == INF
    ensures k == INF <==> ax >= Pow2(32) - Pow2(21)
  {
    TopChoice(ax, k, top);
    TopMagnitude(top);
    MagNext(top - 1);
    UlpBelowTop(top);
    Pow2Next(21);
  }

  /** The early overflow guard never changes the answer. */
  lemma GuardIsRedundant(ax: real, est: int)
    requires ax > 0.0 && Estimate(ax, est)
    ensures EncodeMag(ax, est) == EncodeRest(ax, est)
  {
    RestRounds(ax, est);
    var top := INF;
    InfThreshold(ax, EncodeRest(ax, est), top);
    GuardAboveThreshold(Pow2(31));
    Pow2Next(31);
    TenHalvings();
  }

  lemma TenHalvings()
    ensures Pow2(31) == 1024.0 * Pow2(21)
  {
    Pow2Nine(31);
    Pow2Next(21);
  }

  lemma GuardAboveThreshold(p: real)
    requires p > 0.0
    ensures p * (1.0 + 511.0 / 512.0) * (1.0 + 1.0 / 1024.0) > 2.0 * p - p / 1024.0
  {
  }

  /** `encode` rounds to nearest, ties to even, whatever the exponent estimate. */
  lemma EncodeRounds(ax: real, est: int)
    requires ax > 0.0 && Estimate(ax, est)
    ensures NearestEven(ax, EncodeMag(ax, est))
  {
    GuardIsRedundant(ax, est);
    RestRounds(ax, est);
  }

  lemma EstimateIsIrrelevant(ax: real, est: int, est': int)
    requires ax > 0.0 && Estimate(ax, est) && Estimate(ax, est')
    ensures EncodeMag(ax, est) == EncodeMag(ax, est')
  {
    FrexpUnique(ax, est, est');
  }

  /** Zero exactly up to half the smallest normal. */
  lemma ZeroThreshold(ax: real, est: int)
    requires ax > 0.0 && Estimate(ax, est)
    ensures EncodeMag(ax, est) == 0 <==> ax <= Pow2(-31)
  {
    GuardIsRedundant(ax, est);
    var f := Frexp(ax, est);
    NormalisedRange(ax, f.0, f.1);
    Pow2Next(-31);
    if f.1 >= -30 {
      Pow2Mono(-30, f.1);
    }
  }

  // ---------------------------------------------------------------- patterns with a sign

  /** A double, as far as it matters here; `Finite` values are not zero. */
  datatype Float = NaN | Infinite(neg: bool) | Zero(neg: bool) | Finite(value: real)

  predicate Proper(x: Float) { x.Finite? ==> x.value != 0.0 }

  function Abs(x: real): real { if x < 0.0 then -x else x }

  const SIGN: nat := 0x8000

  /** A usable estimate of the binary exponent of every positive number. */
  ghost predicate Estimator(est: real -> int) {
    forall ax | ax > 0.0 :: Estimate(ax, est(ax))
  }

  function WithSign(neg: bool, k: nat): nat { if neg then SIGN + k else k }

  function Encode(x: Float, est: real -> int): (bits: nat)
    requires Estimator(est) && Proper(x)
    ensures bits < 0x1_0000
  {
    match x
    case NaN => INF + 1
    case Infinite(neg) => WithSign(neg, INF)
    case Zero(neg) => WithSign(neg, 0)
    case Finite(v) => WithSign(v < 0.0, EncodeMag(Abs(v), est(Abs(v))))
  }

  function Decode(bits: nat): (x: Float)
    requires bits < 0x1_0000
    ensures Proper(x)
  {
    var neg, k := bits >= SIGN, bits % SIGN;
    if k < MIN_NORMAL then Zero(neg)
    else if k >= INF then (if k == INF then Infinite(neg) else NaN)
    else
      MagMono(MIN_NORMAL, k);
      NormalIsPositive(MIN_NORMAL);
      Finite(if neg then -Mag(k) else Mag(k))
  }

  lemma NormalIsPositive(k: nat)
    requires k == MIN_NORMAL
    ensures Mag(k) > 0.0
  {
    OctaveStart(k, 1);
  }

  /** The number a pattern other than NaN stands for, infinities standing at 2^32 and -2^32. */
  function Value(bits: nat): real
    requires bits < 0x1_0000
  {
    if bits >= SIGN then -Mag(bits % SIGN) else Mag(bits % SIGN)
  }

  lemma SignedValue(neg: bool, k: nat)
    requires k <= INF
    ensures var r := WithSign(neg, k);
      && r < 0x1_0000 && r % SIGN == k && r % 2 == k % 2 && (r >= SIGN <==> neg)
      && Value(r) == if neg then -Mag(k) else Mag(k)
  {
  }

  /** Rounding the magnitude and keeping the sign rounds the number. */
  lemma SignedNearest(v: real, k: nat, b: nat)
    requires NearestEven(Abs(v), k) && v != 0.0 && b < 0x1_0000 && b % SIGN <= INF
    ensures var r := WithSign(v < 0.0, k);
      && r < 0x1_0000
      && Dist(v, Value(r)) <= Dist(v, Value(b))
      && (Dist(v, Value(r)) == Dist(v, Value(b)) && Value(r) != Value(b) ==> r % 2 == 0)
  {
    var ax, j := Abs(v), b % SIGN;
    SignedValue(v < 0.0, k);
    assert Mag(0) == 0.0;
    assert Dist(ax, Mag(k)) <= Dist(ax, Mag(0)) && (Dist(ax, Mag(k)) == Dist(ax, Mag(0)) && Mag(k) != Mag(0) ==> k % 2 == 0);
    assert Dist(ax, Mag(k)) <= Dist(ax, Mag(j)) && (Dist(ax, Mag(k)) == Dist(ax, Mag(j)) && Mag(k) != Mag(j) ==> k % 2 == 0);
  }

  /** The float of a real number. */
  function Exactly(v: real): (x: Float)
    ensures Proper(x)
  {
    if v == 0.0 then Zero(false) else Finite(v)
  }

  lemma ZeroValue()
    ensures Value(0) == 0.0
  {
  }

  /** For every real number: the nearest pattern, ties to an even one. */
  lemma EncodeNearest(v: real, est: real -> int, b: nat)
    requires Estimator(est) && b < 0x1_0000 && b % SIGN <= INF
    ensures var r := Encode(Exactly(v), est);
      && Dist(v, Value(r)) <= Dist(v, Value(b))
      && (Dist(v, Value(r)) == Dist(v, Value(b)) && Value(r) != Value(b) ==> r % 2 == 0)
  {
    if v == 0.0 {
      ZeroValue();
    } else {
      var ax := Abs(v);
      EncodeRounds(ax, est(ax));
      SignedNearest(v, EncodeMag(ax, est(ax)), b);
    }
  }

  lemma Thresholds()
    ensures Pow2(32) - Pow2(21) > 0.0 && Pow2(-31) > 0.0
  {
    TenHalvings();
    Pow2Next(31);
  }

  /** For every real number: infinite and zero exactly beyond the thresholds, and never the wrong sign. */
  lemma EncodeThresholds(v: real, est: real -> int)
    requires Estimator(est)
    ensures var r := Encode(Exactly(v), est);
      && (r % SIGN == INF <==> Abs(v) >= Pow2(32) - Pow2(21))
      && (r % SIGN == 0 <==> Abs(v) <= Pow2(-31))
      && (r >= SIGN <==> v < 0.0)
  {
    if v == 0.0 {
      Thresholds();
    } else {
      var ax := Abs(v);
      var k, top := EncodeMag(ax, est(ax)), INF;
      EncodeRounds(ax, est(ax));
      InfThreshold(ax, k, top);
      ZeroThreshold(ax, est(ax));
      SignedValue(v < 0.0, k);
    }
  }

  lemma MagOrder(x: real, kx: nat, y: real, ky: nat)
    requires NearestEven(x, kx) && NearestEven(y, ky) && x <= y && (x == y ==> kx == ky)
    ensures Mag(kx) <= Mag(ky)
  {
    assert Dist(x, Mag(kx)) <= Dist(x, Mag(ky)) && Dist(y, Mag(ky)) <= Dist(y, Mag(kx));
  }

  lemma SignedOrder(x: real, kx: nat, y: real, ky: nat)
    requires NearestEven(Abs(x), kx) && NearestEven(Abs(y), ky) && x <= y && x != 0.0 && y != 0.0
    requires Abs(x) == Abs(y) ==> kx == ky
    ensures WithSign(x < 0.0, kx) < 0x1_0000 && WithSign(y < 0.0, ky) < 0x1_0000
    ensures Value(WithSign(x < 0.0, kx)) <= Value(WithSign(y < 0.0, ky))
  {
    SignedValue(x < 0.0, kx);
    SignedValue(y < 0.0, ky);
    if x > 0.0 {
      MagOrder(x, kx, y, ky);
    } else if y < 0.0 {
      MagOrder(-y, ky, -x, kx);
    }
  }

  /** Encoding keeps the side of zero. */
  lemma EncodeSide(v: real, est: real -> int)
    requires Estimator(est) && v != 0.0
    ensures if v < 0.0 then Value(Encode(Finite(v), est)) <= 0.0 else Value(Encode(Finite(v), est)) >= 0.0
  {
    SignedValue(v < 0.0, EncodeMag(Abs(v), est(Abs(v))));
  }

  /** `encode` is monotone over all the reals. */
  lemma EncodeOrder(x: real, y: real, est: real -> int)
    requires Estimator(est) && x <= y
    ensures Value(Encode(Exactly(x), est)) <= Value(Encode(Exactly(y), est))
  {
    ZeroValue();
    if x == 0.0 && y != 0.0 {
      EncodeSide(y, est);
    } else if x != 0.0 && y == 0.0 {
      EncodeSide(x, est);
    } else if x != 0.0 {
      var ax, ay := Abs(x), Abs(y);
      EncodeRounds(ax, est(ax));
      EncodeRounds(ay, est(ay));
      SignedOrder(x, EncodeMag(ax, est(ax)), y, EncodeMag(ay, est(ay)));
    }
  }

  /** What a pattern becomes by decoding and encoding it again. */
  function Canonical(bits: nat): nat
    requires bits < 0x1_0000
  {
    var k := bits % SIGN;
    if k < MIN_NORMAL then bits - k else if k > INF then INF + 1 else bits
  }

  /** Every magnitude encodes to its own pattern. */
  lemma MagnitudeIsFixed(k: nat, est: int)
    requires MIN_NORMAL <= k < INF && Mag(k) > 0.0 && Estimate(Mag(k), est)
    ensures EncodeMag(Mag(k), est) == k
  {
    var r := EncodeMag(Mag(k), est);
    EncodeRounds(Mag(k), est);
    assert Dist(Mag(k), Mag(r)) <= Dist(Mag(k), Mag(k));
    if r < k {
      MagMono(r, k);
    } else if r > k {
      MagMono(k, r);
    }
  }

  lemma EncodeNormal(neg: bool, k: nat, est: real -> int)
    requires Estimator(est) && MIN_NORMAL <= k < INF && Mag(k) > 0.0
    ensures Encode(Finite(if neg then -Mag(k) else Mag(k)), est) == WithSign(neg, k)
  {
    MagnitudeIsFixed(k, est(Mag(k)));
    assert Abs(if neg then -Mag(k) else Mag(k)) == Mag(k);
  }

  lemma DecodeNormal(bits: nat)
    requires bits < 0x1_0000 && MIN_NORMAL <= bits % SIGN < INF
    ensures Mag(bits % SIGN) > 0.0
    ensures Decode(bits) == Finite(if bits >= SIGN then -Mag(bits % SIGN) else Mag(bits % SIGN))
    ensures WithSign(bits >= SIGN, bits % SIGN) == bits
  {
    var least := MIN_NORMAL;
    NormalIsPositive(least);
    MagMono(least, bits % SIGN);
  }

  /** Decoding and encoding changes only zeros with mantissa bits and the sign and payload of NaN. */
  lemma EncodeDecode(bits: nat, est: real -> int)
    requires Estimator(est) && bits < 0x1_0000
    ensures Encode(Decode(bits), est) == Canonical(bits)
  {
    var k := bits % SIGN;
    if MIN_NORMAL <= k < INF {
      DecodeNormal(bits);
      EncodeNormal(bits >= SIGN, k, est);
    }
  }
}
