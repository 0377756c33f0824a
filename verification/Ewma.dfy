/** The fixed-point form of the exponentially weighted average, against the exact one. */
module Ewma {
  import opened Widths

  const ONE_FP: nat := 256

  /** The 16-bit intermediate of `ewma_update`. */
  function Blend(est: byte, sample: byte, w: byte): (m: nat)
    ensures m < 0x1_0000 && m / 256 < 256
  {
    assert w * sample + (ONE_FP - w) * est <= ONE_FP * 255 by {
      BlendBound(est, sample, w);
    }
    w * sample + (ONE_FP - w) * est
  }

  lemma MulMono(a: int, b: int, c: int)
    requires 0 <= a && 0 <= b <= c
    ensures 0 <= a * b <= a * c
  {
  }

  lemma BlendBound(est: byte, sample: byte, w: byte)
    ensures 0 <= w * sample && 0 <= (ONE_FP - w) * est
    ensures w * sample + (ONE_FP - w) * est <= ONE_FP * 255
  {
    MulMono(w, sample, 255);
    MulMono(ONE_FP - w, est, 255);
  }

  function Update(est: byte, sample: byte, w: byte): byte {
    Blend(est, sample, w) / 256
  }

  function Fixed(start: byte, samples: seq<byte>, w: byte): byte {
    if samples == [] then start
    else Update(Fixed(start, samples[..|samples| - 1], w), samples[|samples| - 1], w)
  }

  /** One step with no rounding. */
  function Mix(r: real, sample: byte, w: byte): real {
    (w as real / 256.0) * sample as real + (1.0 - w as real / 256.0) * r
  }

  /** The average with no rounding. */
  function Exact(start: byte, samples: seq<byte>, w: byte): real {
    if samples == [] then start as real
    else Mix(Exact(start, samples[..|samples| - 1], w), samples[|samples| - 1], w)
  }

  /** One step: the shortfall shrinks by the weight and grows by less than one. */
  lemma StepShortfall(est: byte, sample: byte, w: byte, r: real)
    ensures var d, d' := r - est as real, Mix(r, sample, w) - Update(est, sample, w) as real; var k := 1.0 - w as real / 256.0;
      k * d <= d' < k * d + 1.0
  {
    var m, a := Blend(est, sample, w), w as real / 256.0;
    var q := m / 256;
    assert 256 * q <= m < 256 * q + 256;
    assert m as real == w as real * sample as real + (256.0 - w as real) * est as real by {
      BlendReal(est, sample, w);
    }
    assert m as real / 256.0 == a * sample as real + (1.0 - a) * est as real;
    assert (1.0 - a) * r - (1.0 - a) * est as real == (1.0 - a) * (r - est as real);
    assert q as real <= m as real / 256.0 < q as real + 1.0;
  }

  lemma BlendReal(est: byte, sample: byte, w: byte)
    ensures Blend(est, sample, w) as real == w as real * sample as real + (256.0 - w as real) * est as real
  {
    assert (w * sample) as real == w as real * sample as real;
    assert ((ONE_FP - w) * est) as real == (ONE_FP - w) as real * est as real;
    assert (ONE_FP - w) as real == 256.0 - w as real;
  }

  lemma Contract(w: real, d: real)
    requires 1.0 <= w <= 255.0 && 0.0 <= d < 256.0 / w
    ensures 0.0 <= (1.0 - w / 256.0) * d && (1.0 - w / 256.0) * d + 1.0 <= 256.0 / w
  {
    var k, b := 1.0 - w / 256.0, 256.0 / w;
    assert k > 0.0;
    assert k * d <= k * b by { assert k * (b - d) >= 0.0; }
    assert k * b == b - (w / 256.0) * b;
    assert (w / 256.0) * b == 1.0 by { assert w * b == 256.0; }
  }

  /** One step keeps the estimate at most 256 / w below the exact value. */
  lemma StepLag(est: byte, sample: byte, w: byte, r: real)
    requires w >= 1 && 0.0 <= r - est as real < 256.0 / w as real
    ensures 0.0 <= Mix(r, sample, w) - Update(est, sample, w) as real < 256.0 / w as real
  {
    StepShortfall(est, sample, w, r);
    Contract(w as real, r - est as real);
  }

  /** Over every history with weight w >= 1, the fixed-point estimate is never above the exact one and trails it by less than 256 / w. */
  lemma {:induction false} LagBounded(start: byte, samples: seq<byte>, w: byte)
    requires w >= 1
    ensures 0.0 <= Exact(start, samples, w) - Fixed(start, samples, w) as real < 256.0 / w as real
  {
    if samples == [] {
      assert 256.0 / w as real > 0.0;
    } else {
      var n := |samples| - 1;
      LagBounded(start, samples[..n], w);
      StepLag(Fixed(start, samples[..n], w), samples[n], w, Exact(start, samples[..n], w));
    }
  }
}
