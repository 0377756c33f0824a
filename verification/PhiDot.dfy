/** The sequential dot product over GF16: one fused multiply-add, rounded once, per tap. */
module PhiDot {
  import opened Reals
  import opened Gf16

  type bits16 = x: int | 0 <= x < 0x1_0000

  predicate Negative(x: Float) {
    match x
    case NaN => false
    case Infinite(n) => n
    case Zero(n) => n
    case Finite(v) => v < 0.0
  }

  /** The exact product. */
  function Mul(x: Float, y: Float): (r: Float)
    requires Proper(x) && Proper(y)
    ensures Proper(r)
  {
    var neg := Negative(x) != Negative(y);
    if x.NaN? || y.NaN? || (x.Infinite? && y.Zero?) || (x.Zero? && y.Infinite?) then NaN
    else if x.Infinite? || y.Infinite? then Infinite(neg)
    else if x.Zero? || y.Zero? then Zero(neg)
    else Finite(x.value * y.value)
  }

  /** The exact sum; opposite numbers cancel to positive zero. */
  function Add(x: Float, y: Float): (r: Float)
    requires Proper(x) && Proper(y)
    ensures Proper(r)
  {
    if x.NaN? || y.NaN? || (x.Infinite? && y.Infinite? && x.neg != y.neg) then NaN
    else if x.Infinite? then x
    else if y.Infinite? then y
    else if x.Zero? && y.Zero? then Zero(x.neg && y.neg)
    else if x.Zero? then y
    else if y.Zero? then x
    else if x.value + y.value == 0.0 then Zero(false)
    else Finite(x.value + y.value)
  }

  /** The scalar backend: `enc` is `encode` with some exponent estimator. */
  ghost predicate IsEncoder(enc: Float -> bits16, est: real -> int) {
    Estimator(est) && forall x | Proper(x) :: enc(x) == Encode(x, est)
  }

  /** One MAC cell: a*b + acc, rounded once. */
  function PhiFma(a: bits16, b: bits16, acc: bits16, enc: Float -> bits16): bits16 {
    enc(Add(Mul(Decode(a), Decode(b)), Decode(acc)))
  }

  /** The MAC cell of a scalar backend. */
  function Cell(enc: Float -> bits16): (bits16, bits16, bits16) -> bits16 {
    (a: bits16, b: bits16, acc: bits16) => PhiFma(a, b, acc, enc)
  }

  function Min(m: nat, n: nat): nat { if m < n then m else n }

  /** The accumulator after `n` taps, `fma` being the MAC cell. */
  function Accumulated(a: seq<bits16>, b: seq<bits16>, n: nat, fma: (bits16, bits16, bits16) -> bits16): bits16
    requires n <= |a| && n <= |b|
  {
    if n == 0 then 0 else fma(a[n - 1], b[n - 1], Accumulated(a, b, n - 1, fma))
  }

  method Dot(a: seq<bits16>, b: seq<bits16>, fma: (bits16, bits16, bits16) -> bits16) returns (acc: bits16)
    ensures acc == Accumulated(a, b, Min(|a|, |b|), fma)
  {
    acc := 0;
    for k := 0 to Min(|a|, |b|)
      invariant acc == Accumulated(a, b, k, fma)
    {
      acc := fma(a[k], b[k], acc);
    }
  }

  function IntDot(xs: seq<int>, ys: seq<int>, n: nat): int
    requires n <= |xs| && n <= |ys|
  {
    if n == 0 then 0 else IntDot(xs, ys, n - 1) + xs[n - 1] * ys[n - 1]
  }

  predicate Small(n: int) { -1024 <= n <= 1024 }

  /** One step of the cell is exact under the reading `means`, provided the result is small. */
  ghost predicate ExactStep(fma: (bits16, bits16, bits16) -> bits16, means: (bits16, int) -> bool,
                            a: bits16, b: bits16, acc: bits16, x: int, y: int, s: int) {
    means(a, x) && means(b, y) && means(acc, s) && Small(s + x * y) ==> means(fma(a, b, acc), s + x * y)
  }

  ghost predicate ExactCell(fma: (bits16, bits16, bits16) -> bits16, means: (bits16, int) -> bool) {
    means(0, 0) && forall a: bits16, b: bits16, acc: bits16, x: int, y: int, s: int :: ExactStep(fma, means, a, b, acc, x, y, s)
  }

  /** A chain of exact cells computes the integer dot product, as long as its partial sums are small. */
  lemma {:induction false} ChainExact(a: seq<bits16>, b: seq<bits16>, xs: seq<int>, ys: seq<int>, n: nat,
                                      fma: (bits16, bits16, bits16) -> bits16, means: (bits16, int) -> bool)
    requires ExactCell(fma, means) && n <= |a| && n <= |b| && n <= |xs| && n <= |ys|
    requires forall k | 0 <= k < n :: means(a[k], xs[k]) && means(b[k], ys[k])
    requires forall k | 0 <= k <= n :: Small(IntDot(xs, ys, k))
    ensures means(Accumulated(a, b, n, fma), IntDot(xs, ys, n))
  {
    if n > 0 {
      ChainExact(a, b, xs, ys, n - 1, fma, means);
      assert means(a[n - 1], xs[n - 1]) && means(b[n - 1], ys[n - 1]) && Small(IntDot(xs, ys, n));
      assert ExactStep(fma, means, a[n - 1], b[n - 1], Accumulated(a, b, n - 1, fma),
                       xs[n - 1], ys[n - 1], IntDot(xs, ys, n - 1));
    }
  }

  // ---------------------------------------------------------------- integers

  /** The float is the integer `n`. */
  predicate Holds(x: Float, n: int) {
    match x
    case Zero(_) => n == 0
    case Finite(v) => v == n as real
    case _ => false
  }

  /** The pattern decodes to exactly the integer `n`. */
  predicate Denotes(bits: bits16, n: int) {
    Holds(Decode(bits), n)
  }

  /** Halving a magnitude moves it down one octave. */
  lemma HalfMag(k: nat)
    requires k >= 2 * MIN_NORMAL
    ensures Mag(k) == 2.0 * Mag(k - 512)
  {
    assert (k - 512) / 512 == k / 512 - 1 && (k - 512) % 512 == k % 512;
    Pow2Next(k / 512 - 41);
    TimesIsProduct(512 + k % 512, Pow2(k / 512 - 40));
    TimesIsProduct(512 + k % 512, Pow2(k / 512 - 41));
    assert (512 + k % 512) as real * (2.0 * Pow2(k / 512 - 41)) == 2.0 * ((512 + k % 512) as real * Pow2(k / 512 - 41));
  }

  /** Integers up to 1024 are magnitudes. */
  lemma {:induction false} SmallInteger(n: nat) returns (k: nat)
    requires 1 <= n <= 1024
    ensures 512 * 31 <= k <= 512 * 41 && Mag(k) == n as real
    decreases 1024 - n
  {
    var e := 40;
    if n >= 512 {
      k := 512 * e + (n - 512);
      MagInOctave(e, n - 512);
      assert Pow2(e - 40) == 1.0;
      TimesIsProduct(n, Pow2(e - 40));
    } else {
      var k2 := SmallInteger(2 * n);
      OctaveStart(512 * (e - 8), e - 8);
      assert Pow2(e - 8 - 31) == 2.0;
      if k2 < 512 * (e - 8) {
        MagMono(k2, 512 * (e - 8));
      }
      k := k2 - 512;
      HalfMag(k2);
    }
  }

  /** Such an integer survives encoding exactly. */
  lemma IntegerSurvives(n: int, est: real -> int)
    requires Estimator(est) && -1024 <= n <= 1024 && n != 0
    ensures Denotes(Encode(Finite(n as real), est), n)
  {
    var k := SmallInteger(if n < 0 then -n else n);
    EncodeNormal(n < 0, k, est);
    SignedValue(n < 0, k);
    DecodeNormal(WithSign(n < 0, k));
  }

  /** The real number a float stands for, if any. */
  predicate Finitely(x: Float) { x.Zero? || x.Finite? }

  function RealOf(x: Float): real
    requires Finitely(x)
  {
    if x.Zero? then 0.0 else x.value
  }

  lemma MacIsExact(p: Float, q: Float, r: Float)
    requires Proper(p) && Proper(q) && Proper(r) && Finitely(p) && Finitely(q) && Finitely(r)
    ensures var m := Add(Mul(p, q), r); Finitely(m) && RealOf(m) == RealOf(p) * RealOf(q) + RealOf(r)
  {
  }

  /** The pattern `r` is no farther from `v` than `c` is, and even on a tie. */
  ghost predicate AsNear(v: real, r: nat, c: nat)
    requires r < 0x1_0000 && c < 0x1_0000
  {
    && Dist(v, Value(r)) <= Dist(v, Value(c))
    && (Dist(v, Value(r)) == Dist(v, Value(c)) && Value(r) != Value(c) ==> r % 2 == 0)
  }

  lemma EncodedIsNearest(m: Float, est: real -> int, c: nat)
    requires Estimator(est) && Proper(m) && Finitely(m) && c < 0x1_0000 && c % SIGN <= INF
    ensures AsNear(RealOf(m), Encode(m, est), c)
  {
    if m.Zero? {
      SignedValue(m.neg, 0);
      ZeroValue();
    } else {
      EncodeNearest(m.value, est, c);
      assert Exactly(m.value) == m;
    }
  }

  lemma MacRoundsOnce(x: Float, y: Float, z: Float, v: real, enc: Float -> bits16, est: real -> int, c: nat)
    requires IsEncoder(enc, est) && c < 0x1_0000 && c % SIGN <= INF
    requires Proper(x) && Proper(y) && Proper(z) && Finitely(x) && Finitely(y) && Finitely(z)
    requires v == RealOf(x) * RealOf(y) + RealOf(z)
    ensures AsNear(v, enc(Add(Mul(x, y), z)), c)
  {
    var m := Add(Mul(x, y), z);
    MacIsExact(x, y, z);
    EncodedIsNearest(m, est, c);
    assert enc(m) == Encode(m, est);
  }

  /** The MAC cell rounds once: on finite operands its result is a nearest value to the exact a * b + acc, ties to even. */
  lemma FmaRoundsOnce(a: bits16, b: bits16, acc: bits16, x: Float, y: Float, z: Float, enc: Float -> bits16, est: real -> int, c: nat)
    requires IsEncoder(enc, est) && c < 0x1_0000 && c % SIGN <= INF
    requires x == Decode(a) && y == Decode(b) && z == Decode(acc) && Finitely(x) && Finitely(y) && Finitely(z)
    ensures AsNear(RealOf(x) * RealOf(y) + RealOf(z), PhiFma(a, b, acc, enc), c)
  {
    MacRoundsOnce(x, y, z, RealOf(x) * RealOf(y) + RealOf(z), enc, est, c);
  }

  /** Not a number exactly for an operand that is none, infinity times zero, or infinities that cancel. */
  lemma FmaIsNaN(p: Float, q: Float, r: Float)
    requires Proper(p) && Proper(q) && Proper(r)
    ensures Add(Mul(p, q), r).NaN? <==>
      || p.NaN? || q.NaN? || r.NaN?
      || (p.Infinite? && q.Zero?) || (p.Zero? && q.Infinite?)
      || ((p.Infinite? || q.Infinite?) && r.Infinite? && (Negative(p) != Negative(q)) != r.neg)
  {
  }

  /** The encoder keeps small integers. */
  ghost predicate KeepsIntegers(enc: Float -> bits16) {
    forall x, n | Proper(x) && Holds(x, n) && Small(n) :: Denotes(enc(x), n)
  }

  lemma EncoderKeepsIntegers(enc: Float -> bits16, est: real -> int)
    requires IsEncoder(enc, est)
    ensures KeepsIntegers(enc)
  {
    forall x, n | Proper(x) && Holds(x, n) && Small(n)
      ensures Denotes(enc(x), n)
    {
      if x.Finite? {
        IntegerSurvives(n, est);
      }
    }
  }

  lemma MacExact(p: Float, q: Float, r: Float, x: int, y: int, s: int)
    requires Proper(p) && Proper(q) && Proper(r) && Holds(p, x) && Holds(q, y) && Holds(r, s)
    ensures Holds(Add(Mul(p, q), r), s + x * y)
  {
    assert x as real * y as real == (x * y) as real;
    assert (x * y) as real + s as real == (s + x * y) as real;
  }

  lemma FmaExact(a: bits16, b: bits16, acc: bits16, enc: Float -> bits16, x: int, y: int, s: int)
    requires KeepsIntegers(enc) && Denotes(a, x) && Denotes(b, y) && Denotes(acc, s) && Small(s + x * y)
    ensures Denotes(PhiFma(a, b, acc, enc), s + x * y)
  {
    MacExact(Decode(a), Decode(b), Decode(acc), x, y, s);
  }

  /** `phi_fma` is an exact cell on integers. */
  lemma PhiFmaIsExact(enc: Float -> bits16, est: real -> int)
    requires IsEncoder(enc, est)
    ensures ExactCell(Cell(enc), Denotes)
  {
    EncoderKeepsIntegers(enc, est);
    var fma := Cell(enc);
    assert Denotes(0, 0);
    forall a: bits16, b: bits16, acc: bits16, x: int, y: int, s: int
      ensures ExactStep(fma, Denotes, a, b, acc, x, y, s)
    {
      if Denotes(a, x) && Denotes(b, y) && Denotes(acc, s) && Small(s + x * y) {
        FmaExact(a, b, acc, enc, x, y, s);
      }
    }
  }

  /** Integer taps whose partial sums stay within 1024 are accumulated without any rounding error. */
  lemma DotExact(a: seq<bits16>, b: seq<bits16>, xs: seq<int>, ys: seq<int>, enc: Float -> bits16, est: real -> int)
    requires IsEncoder(enc, est) && |xs| == |a| && |ys| == |b|
    requires (forall k | 0 <= k < |a| :: Denotes(a[k], xs[k])) && (forall k | 0 <= k < |b| :: Denotes(b[k], ys[k]))
    requires forall k | 0 <= k <= Min(|a|, |b|) :: Small(IntDot(xs, ys, k))
    ensures Denotes(Accumulated(a, b, Min(|a|, |b|), Cell(enc)), IntDot(xs, ys, Min(|a|, |b|)))
  {
    PhiFmaIsExact(enc, est);
    ChainExact(a, b, xs, ys, Min(|a|, |b|), Cell(enc), Denotes);
  }
}
