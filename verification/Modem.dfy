/**
  The symbol core of the BPSK modem: Barker-13 preamble, length byte, payload,
  one symbol per bit.  Samples are pairs of exact reals and a norm is compared
  with the threshold 8 by comparing its square with 64.
 */
module Modem {
  import opened Widths
  import opened Bytes
  import opened Words
  import opened Reals

  datatype Complex = Complex(re: real, im: real)

  const CHIPS: nat := 13
  const THRESHOLD_SQ: real := 64.0

  /** BARKER13. */
  function Chip(k: nat): real
    requires k < CHIPS
  {
    if k == 5 || k == 6 || k == 9 || k == 11 then -1.0 else 1.0
  }

  // ---------------------------------------------------------------- modulation

  function Level(bit: bool): real { if bit then 1.0 else -1.0 }

  /** Symbol `i` of the frame for `payload`: preamble, length, then the bytes, least significant bit first. */
  function Symbol(payload: seq<byte>, i: nat): real
    requires |payload| <= 255 && i < FrameLength(payload)
  {
    if i < CHIPS then Chip(i)
    else if i < CHIPS + 8 then Level(Bit(|payload|, i - CHIPS))
    else Level(Bit(payload[(i - CHIPS - 8) / 8], (i - CHIPS - 8) % 8))
  }

  function FrameLength(payload: seq<byte>): nat { CHIPS + 8 + 8 * |payload| }

  method PushByte(sym: seq<Complex>, b: byte) returns (out: seq<Complex>)
    ensures |out| == |sym| + 8 && out[..|sym|] == sym
    ensures forall i | 0 <= i < 8 :: out[|sym| + i] == Complex(Level(Bit(b, i)), 0.0)
  {
    out := sym;
    for i := 0 to 8
      invariant |out| == |sym| + i && out[..|sym|] == sym
      invariant forall j | 0 <= j < i :: out[|sym| + j] == Complex(Level(Bit(b, j)), 0.0)
    {
      var bit := Shr(b, i) % 2;
      ShrBit(b, i);
      out := out + [Complex(if bit == 1 then 1.0 else -1.0, 0.0)];
    }
  }

  lemma {:induction false} ShrBit(x: nat, k: nat)
    ensures Bit(x, k) <==> Shr(x, k) % 2 == 1
  {
    if k > 0 {
      ShrBit(x / 2, k - 1);
    }
  }

  method Modulate(payload: seq<byte>) returns (sym: seq<Complex>)
    requires |payload| <= 255
    ensures |sym| == FrameLength(payload)
    ensures forall i | 0 <= i < |sym| :: sym[i] == Complex(Symbol(payload, i), 0.0)
  {
    sym := seq(CHIPS, k requires 0 <= k < CHIPS => Complex(Chip(k), 0.0));
    sym := PushByte(sym, |payload|);
    assert forall i | 0 <= i < CHIPS + 8 :: sym[i] == Complex(Symbol(payload, i), 0.0);
    for j := 0 to |payload|
      invariant |sym| == CHIPS + 8 + 8 * j
      invariant forall i | 0 <= i < |sym| :: sym[i] == Complex(Symbol(payload, i), 0.0)
    {
      var before := sym;
      sym := PushByte(sym, payload[j]);
      forall i | |before| <= i < |sym|
        ensures sym[i] == Complex(Symbol(payload, i), 0.0)
      {
        var o := i - |before|;
        assert (8 * j + o) / 8 == j && (8 * j + o) % 8 == o;
        assert sym[|before| + o] == Complex(Level(Bit(payload[j], o)), 0.0);
      }
    }
  }

  // ---------------------------------------------------------------- what demodulation computes

  /** The correlation of the first `k` chips with the samples from `s` on. */
  function Corr(samples: seq<Complex>, s: nat, k: nat): Complex
    requires k <= CHIPS && s + k <= |samples|
  {
    if k == 0 then Complex(0.0, 0.0)
    else
      var c, x := Corr(samples, s, k - 1), samples[s + k - 1];
      Complex(c.re + x.re * Chip(k - 1), c.im + x.im * Chip(k - 1))
  }

  function NormSq(c: Complex): real { c.re * c.re + c.im * c.im }

  /** The strength of the preamble at `s`. */
  function Power(samples: seq<Complex>, s: nat): real
    requires s + CHIPS <= |samples|
  {
    NormSq(Corr(samples, s, CHIPS))
  }

  /** The first position from `s` on where the correlation reaches the threshold. */
  function Seek(samples: seq<Complex>, s: nat): (r: nat)
    requires s + CHIPS <= |samples| + 1
    ensures s <= r && r + CHIPS <= |samples| + 1
    ensures forall i | s <= i < r :: Power(samples, i) < THRESHOLD_SQ
    ensures r + CHIPS <= |samples| ==> Power(samples, r) >= THRESHOLD_SQ
    decreases |samples| - s
  {
    if s + CHIPS > |samples| || Power(samples, s) >= THRESHOLD_SQ then s else Seek(samples, s + 1)
  }

  /** The strongest position of the excursion that continues at `s`, `best` being the strongest so far. */
  function Climb(samples: seq<Complex>, best: nat, s: nat): (r: nat)
    requires best < s && s + CHIPS <= |samples| + 1
    ensures r + CHIPS <= |samples|
    decreases |samples| - s
  {
    if s + CHIPS > |samples| || Power(samples, s) < THRESHOLD_SQ then best
    else Climb(samples, if Power(samples, s) > Power(samples, best) then s else best, s + 1)
  }

  /** The bit carried by a sample, given the polarity. */
  predicate BitAt(samples: seq<Complex>, i: nat, flip: bool)
    requires i < |samples|
  {
    (samples[i].re > 0.0) != flip
  }

  /** The number formed by `k` bits from `at` on. */
  function Bits(samples: seq<Complex>, at: nat, k: nat, flip: bool): (v: nat)
    requires at + k <= |samples|
    ensures v < Pow2(k)
  {
    if k == 0 then 0 else Bits(samples, at, k - 1, flip) + if BitAt(samples, at + k - 1, flip) then Pow2(k - 1) else 0
  }

  function ByteAt(samples: seq<Complex>, at: nat, flip: bool): byte
    requires at + 8 <= |samples|
  {
    assert Pow2(8) == 256;
    Bits(samples, at, 8, flip)
  }

  function Decode(samples: seq<Complex>, at: nat, n: nat, flip: bool): Option<seq<byte>> {
    if at + 8 * n > |samples| then None
    else Some(seq(n, b requires 0 <= b < n => ByteAt(samples, at + 8 * b, flip)))
  }

  function Demodulated(samples: seq<Complex>): Option<seq<byte>> {
    if |samples| < CHIPS + 8 then None
    else
      var first := Seek(samples, 0);
      if first + CHIPS > |samples| then None
      else
        ReadAt(samples, Climb(samples, first, first + 1))
  }

  /** What is read of a frame that starts at `start`. */
  function ReadAt(samples: seq<Complex>, start: nat): Option<seq<byte>>
    requires start + CHIPS <= |samples|
  {
    var flip := Corr(samples, start, CHIPS).re < 0.0;
    var data := start + CHIPS;
    match Decode(samples, data, 1, flip)
    case None => None
    case Some(len) => Decode(samples, data + 8, len[0], flip)
  }

  // ---------------------------------------------------------------- the code

  method CorrAt(samples: seq<Complex>, s: nat) returns (c: Complex)
    requires s + CHIPS <= |samples|
    ensures c == Corr(samples, s, CHIPS)
  {
    c := Complex(0.0, 0.0);
    for k := 0 to CHIPS
      invariant c == Corr(samples, s, k)
    {
      var x := samples[s + k];
      c := Complex(c.re + x.re * Chip(k), c.im + x.im * Chip(k));
    }
  }

  method DecodeBytes(samples: seq<Complex>, at: nat, n: nat, flip: bool) returns (r: Option<seq<byte>>)
    ensures r == Decode(samples, at, n, flip)
  {
    if at + n * 8 > |samples| {
      return None;
    }
    var bytes: seq<byte> := [];
    for bi := 0 to n
      invariant |bytes| == bi && forall b | 0 <= b < bi :: bytes[b] == ByteAt(samples, at + 8 * b, flip)
    {
      var v := 0;
      for i := 0 to 8
        invariant v == Bits(samples, at + 8 * bi, i, flip)
      {
        var positive := samples[at + bi * 8 + i].re > 0.0;
        if positive != flip {
          v := v + Pow2(i);
        }
      }
      assert Pow2(8) == 256;
      bytes := bytes + [v];
    }
    assert bytes == Decode(samples, at, n, flip).value;
    r := Some(bytes);
  }

  method Demodulate(samples: seq<Complex>) returns (r: Option<seq<byte>>)
    ensures r == Demodulated(samples)
  {
    if |samples| < CHIPS + 8 {
      return None;
    }
    var last := |samples| - CHIPS;
    var start := 0;
    while start <= last
      invariant 0 <= start <= last + 1
      invariant Seek(samples, start) == Seek(samples, 0)
    {
      var c := CorrAt(samples, start);
      if NormSq(c) >= THRESHOLD_SQ {
        break;
      }
      start := start + 1;
    }
    if start > last {
      return None;
    }
    var corr := CorrAt(samples, start);
    var s := start + 1;
    ghost var peak := Climb(samples, start, s);
    while s <= last
      invariant start < s <= last + 1
      invariant corr == Corr(samples, start, CHIPS)
      invariant Climb(samples, start, s) == peak
    {
      var c := CorrAt(samples, s);
      if NormSq(c) < THRESHOLD_SQ {
        break;
      }
      if NormSq(c) > NormSq(corr) {
        corr, start := c, s;
      }
      s := s + 1;
    }
    assert Demodulated(samples) == ReadAt(samples, start);
    var flip := corr.re < 0.0;
    var data := start + CHIPS;
    var len := DecodeBytes(samples, data, 1, flip);
    if len.None? {
      return None;
    }
    r := DecodeBytes(samples, data + 8, len.value[0], flip);
  }

  // ---------------------------------------------------------------- reception

  const NOISE: real := 5.0 / 13.0

  predicate Near(x: real, y: real, eps: real) { -eps <= x - y <= eps }

  function Polar(flip: bool, x: real): real { if flip then -x else x }

  /** What is on the air at sample `i`: silence, then the frame, possibly inverted. */
  function Clean(payload: seq<byte>, lead: nat, flip: bool, i: nat): real
    requires |payload| <= 255 && i < lead + FrameLength(payload)
  {
    if i < lead then 0.0 else Polar(flip, Symbol(payload, i - lead))
  }

  /** The frame arrives after `lead` samples of silence, each sample up to its end perturbed by at most `eps` per part. */
  ghost predicate Received(samples: seq<Complex>, payload: seq<byte>, lead: nat, flip: bool, eps: real) {
    && |payload| <= 255
    && lead + FrameLength(payload) <= |samples|
    && forall i | 0 <= i < lead + FrameLength(payload) ::
         Near(samples[i].re, Clean(payload, lead, flip, i), eps) && Near(samples[i].im, 0.0, eps)
  }

  /** The noise-free correlation. */
  function CleanCorr(payload: seq<byte>, lead: nat, flip: bool, s: nat, k: nat): real
    requires |payload| <= 255 && k <= CHIPS && s + k <= lead + FrameLength(payload)
  {
    if k == 0 then 0.0
    else CleanCorr(payload, lead, flip, s, k - 1) + Clean(payload, lead, flip, s + k - 1) * Chip(k - 1)
  }

  /** Noise moves the correlation by at most the number of chips times the noise. */
  lemma {:induction false} CorrNear(samples: seq<Complex>, payload: seq<byte>, lead: nat, flip: bool, s: nat, k: nat)
    requires Received(samples, payload, lead, flip, NOISE) && k <= CHIPS && s + k <= lead + FrameLength(payload)
    ensures Near(Corr(samples, s, k).re, CleanCorr(payload, lead, flip, s, k), k as real * NOISE)
    ensures Near(Corr(samples, s, k).im, 0.0, k as real * NOISE)
  {
    if k > 0 {
      CorrNear(samples, payload, lead, flip, s, k - 1);
      var i := s + k - 1;
      assert Near(samples[i].re, Clean(payload, lead, flip, i), NOISE) && Near(samples[i].im, 0.0, NOISE);
      assert Chip(k - 1) == 1.0 || Chip(k - 1) == -1.0;
      assert k as real * NOISE == (k - 1) as real * NOISE + NOISE;
    }
  }

  // Barker-13 autocorrelation

  /** Term `k` of the correlation of the preamble with itself delayed by `d`. */
  function Overlap(d: nat, k: nat): real
    requires k < CHIPS
  {
    if k < d then 0.0 else Chip(k - d) * Chip(k)
  }

  function Auto(d: nat, k: nat): real
    requires k <= CHIPS
  {
    if k == 0 then 0.0 else Auto(d, k - 1) + Overlap(d, k - 1)
  }

  lemma AutoUnrolled(d: nat)
    ensures Auto(d, 13) == Overlap(d, 0) + Overlap(d, 1) + Overlap(d, 2) + Overlap(d, 3) + Overlap(d, 4) + Overlap(d, 5)
      + Overlap(d, 6) + Overlap(d, 7) + Overlap(d, 8) + Overlap(d, 9) + Overlap(d, 10) + Overlap(d, 11) + Overlap(d, 12)
  {
    assert Auto(d, 1) == Overlap(d, 0);
    assert Auto(d, 3) == Auto(d, 1) + Overlap(d, 1) + Overlap(d, 2);
    assert Auto(d, 5) == Auto(d, 3) + Overlap(d, 3) + Overlap(d, 4);
    assert Auto(d, 7) == Auto(d, 5) + Overlap(d, 5) + Overlap(d, 6);
    assert Auto(d, 9) == Auto(d, 7) + Overlap(d, 7) + Overlap(d, 8);
    assert Auto(d, 11) == Auto(d, 9) + Overlap(d, 9) + Overlap(d, 10);
    assert Auto(d, 13) == Auto(d, 11) + Overlap(d, 11) + Overlap(d, 12);
  }

  /** The peak is 13 and every sidelobe is 0 or 1. */
  lemma Barker(d: nat)
    ensures Auto(0, 13) == 13.0
    ensures d > 0 ==> 0.0 <= Auto(d, 13) <= 1.0
  {
    AutoUnrolled(0);
    AutoUnrolled(d);
    if 1 <= d <= 6 {
      if d == 1 {} else if d == 2 {} else if d == 3 {} else if d == 4 {} else if d == 5 {} else {}
    } else if 7 <= d <= 12 {
      if d == 7 {} else if d == 8 {} else if d == 9 {} else if d == 10 {} else if d == 11 {} else {}
    }
  }

  /** Up to the frame start, the clean correlation is the preamble's autocorrelation. */
  lemma {:induction false} CleanIsAuto(payload: seq<byte>, lead: nat, flip: bool, s: nat, k: nat)
    requires |payload| <= 255 && s <= lead && k <= CHIPS
    ensures CleanCorr(payload, lead, flip, s, k) == Polar(flip, Auto(lead - s, k))
  {
    if k > 0 {
      var d, i := lead - s, s + k - 1;
      CleanIsAuto(payload, lead, flip, s, k - 1);
      assert Chip(k - 1) == 1.0 || Chip(k - 1) == -1.0;
      if k - 1 >= d {
        assert Clean(payload, lead, flip, i) == Polar(flip, Chip(k - 1 - d));
      }
    }
  }

  /** One past the frame start, twelve chips cancel and one data symbol is left. */
  lemma CleanAfterPeak(payload: seq<byte>, lead: nat, flip: bool)
    requires |payload| <= 255
    ensures -1.0 <= CleanCorr(payload, lead, flip, lead + 1, 13) <= 1.0
  {
    CleanPair(payload, lead, flip, 0);
    CleanPair(payload, lead, flip, 2);
    CleanPair(payload, lead, flip, 4);
    CleanPair(payload, lead, flip, 6);
    CleanPair(payload, lead, flip, 8);
    CleanPair(payload, lead, flip, 10);
    assert CleanCorr(payload, lead, flip, lead + 1, 0) == 0.0;
    assert Symbol(payload, 13) == 1.0 || Symbol(payload, 13) == -1.0;
    assert CleanCorr(payload, lead, flip, lead + 1, 13)
        == CleanCorr(payload, lead, flip, lead + 1, 12) + Polar(flip, Symbol(payload, 13));
  }

  lemma CleanPair(payload: seq<byte>, lead: nat, flip: bool, k: nat)
    requires |payload| <= 255 && k <= 10
    ensures CleanCorr(payload, lead, flip, lead + 1, k + 2)
      == CleanCorr(payload, lead, flip, lead + 1, k) + Polar(flip, Chip(k + 1) * Chip(k)) + Polar(flip, Chip(k + 2) * Chip(k + 1))
  {
    assert Clean(payload, lead, flip, lead + 1 + k) == Polar(flip, Chip(k + 1));
    assert Clean(payload, lead, flip, lead + 1 + (k + 1)) == Polar(flip, Chip(k + 2));
    assert CleanCorr(payload, lead, flip, lead + 1, k + 1)
        == CleanCorr(payload, lead, flip, lead + 1, k) + Polar(flip, Chip(k + 1) * Chip(k));
  }

  // the search

  lemma Weak(c: Complex)
    requires -6.0 <= c.re <= 6.0 && -5.0 <= c.im <= 5.0
    ensures NormSq(c) < THRESHOLD_SQ
  {
    NonNegProduct(6.0 - c.re, 6.0 + c.re);
    NonNegProduct(5.0 - c.im, 5.0 + c.im);
    assert (6.0 - c.re) * (6.0 + c.re) == 36.0 - c.re * c.re;
    assert (5.0 - c.im) * (5.0 + c.im) == 25.0 - c.im * c.im;
  }

  lemma Strong(c: Complex)
    requires c.re >= 8.0 || c.re <= -8.0
    ensures NormSq(c) >= THRESHOLD_SQ
  {
    if c.re >= 8.0 {
      NonNegProduct(c.re - 8.0, c.re + 8.0);
    } else {
      NonNegProduct(-8.0 - c.re, 8.0 - c.re);
    }
    assert (c.re - 8.0) * (c.re + 8.0) == c.re * c.re - 64.0;
    assert c.im * c.im >= 0.0;
  }

  /** Below threshold before the frame, at or above it at the frame, below it right after. */
  lemma PowerAt(samples: seq<Complex>, payload: seq<byte>, lead: nat, flip: bool, s: nat)
    requires Received(samples, payload, lead, flip, NOISE) && s <= lead + 1
    ensures s != lead ==> Power(samples, s) < THRESHOLD_SQ
    ensures s == lead ==> Power(samples, s) >= THRESHOLD_SQ && (Corr(samples, s, CHIPS).re < 0.0 <==> flip)
  {
    CorrNear(samples, payload, lead, flip, s, 13);
    assert 13 as real * NOISE == 5.0;
    if s <= lead {
      CleanIsAuto(payload, lead, flip, s, 13);
      Barker(lead - s);
    } else {
      CleanAfterPeak(payload, lead, flip);
    }
    if s == lead {
      Strong(Corr(samples, s, CHIPS));
    } else {
      Weak(Corr(samples, s, CHIPS));
    }
  }

  lemma {:induction false} SeekFinds(samples: seq<Complex>, payload: seq<byte>, lead: nat, flip: bool)
    requires Received(samples, payload, lead, flip, NOISE)
    ensures Seek(samples, 0) == lead && Climb(samples, lead, lead + 1) == lead
  {
    var r := Seek(samples, 0);
    PowerAt(samples, payload, lead, flip, lead);
    PowerAt(samples, payload, lead, flip, lead + 1);
    if r < lead {
      PowerAt(samples, payload, lead, flip, r);
    }
  }

  // the bits

  lemma {:induction false} TruncSnoc(x: nat, k: nat)
    ensures Trunc(x, k + 1) == Trunc(x, k) + if Bit(x, k) then Pow2(k) else 0
  {
    if k > 0 {
      TruncSnoc(x / 2, k - 1);
    } else {
      assert Trunc(x / 2, 0) == 0;
    }
  }

  lemma {:induction false} TruncSmall(x: nat, k: nat)
    requires x < Pow2(k)
    ensures Trunc(x, k) == x
  {
    if k > 0 {
      TruncSmall(x / 2, k - 1);
    }
  }

  lemma {:induction false} BitsOf(samples: seq<Complex>, at: nat, k: nat, flip: bool, x: nat)
    requires at + k <= |samples| && forall i | 0 <= i < k :: BitAt(samples, at + i, flip) <==> Bit(x, i)
    ensures Bits(samples, at, k, flip) == Trunc(x, k)
  {
    if k > 0 {
      BitsOf(samples, at, k - 1, flip, x);
      TruncSnoc(x, k - 1);
    }
  }

  /** A data sample carries its bit. */
  lemma BitSurvives(samples: seq<Complex>, payload: seq<byte>, lead: nat, flip: bool, i: nat, bit: bool)
    requires Received(samples, payload, lead, flip, NOISE) && i < FrameLength(payload)
    requires Symbol(payload, i) == Level(bit)
    ensures BitAt(samples, lead + i, flip) == bit
  {
    assert Near(samples[lead + i].re, Clean(payload, lead, flip, lead + i), NOISE);
  }

  lemma LengthSurvives(samples: seq<Complex>, payload: seq<byte>, lead: nat, flip: bool)
    requires Received(samples, payload, lead, flip, NOISE)
    ensures ByteAt(samples, lead + CHIPS, flip) == |payload|
  {
    forall i | 0 <= i < 8
      ensures BitAt(samples, lead + CHIPS + i, flip) <==> Bit(|payload|, i)
    {
      BitSurvives(samples, payload, lead, flip, CHIPS + i, Bit(|payload|, i));
    }
    BitsOf(samples, lead + CHIPS, 8, flip, |payload|);
    assert Pow2(8) == 256;
    TruncSmall(|payload|, 8);
  }

  lemma ByteSurvives(samples: seq<Complex>, payload: seq<byte>, lead: nat, flip: bool, b: nat)
    requires Received(samples, payload, lead, flip, NOISE) && b < |payload|
    ensures ByteAt(samples, lead + CHIPS + 8 + 8 * b, flip) == payload[b]
  {
    forall i | 0 <= i < 8
      ensures BitAt(samples, lead + CHIPS + 8 + 8 * b + i, flip) <==> Bit(payload[b], i)
    {
      assert (8 * b + i) / 8 == b && (8 * b + i) % 8 == i;
      BitSurvives(samples, payload, lead, flip, CHIPS + 8 + 8 * b + i, Bit(payload[b], i));
    }
    BitsOf(samples, lead + CHIPS + 8 + 8 * b, 8, flip, payload[b]);
    assert Pow2(8) == 256;
    TruncSmall(payload[b], 8);
  }

  /**
    Demodulation inverts modulation, for every payload, either polarity, any
    leading silence and any trailing samples, under noise of up to 5/13 per part.
   */
  lemma DemodulateInvertsModulate(samples: seq<Complex>, payload: seq<byte>, lead: nat, flip: bool)
    requires Received(samples, payload, lead, flip, NOISE)
    ensures Demodulated(samples) == Some(payload)
  {
    var data := lead + CHIPS;
    SeekFinds(samples, payload, lead, flip);
    PowerAt(samples, payload, lead, flip, lead);
    LengthSurvives(samples, payload, lead, flip);
    assert Decode(samples, data, 1, flip).value[0] == |payload|;
    forall b | 0 <= b < |payload|
      ensures Decode(samples, data + 8, |payload|, flip).value[b] == payload[b]
    {
      ByteSurvives(samples, payload, lead, flip, b);
    }
    assert Decode(samples, data + 8, |payload|, flip).value == payload;
  }

  // ---------------------------------------------------------------- the noise bound is sharp

  lemma FaintTerm(c: real, x: real, chip: real, bound: real, level: real)
    requires (chip == 1.0 || chip == -1.0) && Near(c, 0.0, bound) && Near(x, 0.0, level)
    ensures Near(c + x * chip, 0.0, bound + level)
  {
  }

  lemma {:induction false} FaintCorr(samples: seq<Complex>, s: nat, k: nat, level: real)
    requires level >= 0.0 && k <= CHIPS && s + k <= |samples|
    requires forall i | 0 <= i < |samples| :: Near(samples[i].re, 0.0, level) && samples[i].im == 0.0
    ensures Near(Corr(samples, s, k).re, 0.0, Times(k, level)) && Corr(samples, s, k).im == 0.0
  {
    if k > 0 {
      var j := k - 1;
      var c, x := Corr(samples, s, j), samples[s + j];
      FaintCorr(samples, s, j, level);
      FaintTerm(c.re, x.re, Chip(j), Times(j, level), level);
    }
  }

  /** With noise of any `eps` above 5/13 allowed, every payload has a reception that is not decoded at all. */
  lemma NoiseBoundIsSharp(payload: seq<byte>, eps: real)
    requires |payload| <= 255 && NOISE < eps
    ensures exists samples :: Received(samples, payload, 0, false, eps) && Demodulated(samples) == None
  {
    var level := if eps < 1.0 then 1.0 - eps else 0.0;
    var samples := seq(FrameLength(payload), i requires 0 <= i < FrameLength(payload) =>
      Complex(if Symbol(payload, i) > 0.0 then level else -level, 0.0));
    forall i | 0 <= i < |samples|
      ensures Near(samples[i].re, Clean(payload, 0, false, i), eps)
      ensures Near(samples[i].re, 0.0, level) && samples[i].im == 0.0
    {
      assert Symbol(payload, i) == 1.0 || Symbol(payload, i) == -1.0;
    }
    assert Received(samples, payload, 0, false, eps);
    var r := Seek(samples, 0);
    if r + CHIPS <= |samples| {
      FaintCorr(samples, r, CHIPS, level);
      TimesIsProduct(CHIPS, level);
      TooFaint(Corr(samples, r, CHIPS));
    }
  }

  lemma TooFaint(c: Complex)
    requires -8.0 < c.re < 8.0 && c.im == 0.0
    ensures NormSq(c) < THRESHOLD_SQ
  {
    assert (8.0 - c.re) * (8.0 + c.re) == 64.0 - c.re * c.re;
    PositiveProduct(8.0 - c.re, 8.0 + c.re);
  }
}
