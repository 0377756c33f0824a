/**
  Where the modem takes a frame to start, for every sequence of samples, and
  what that means for frames that arrive after other samples or are cut short.
 */
module Preamble {
  import opened Widths
  import opened Bytes
  import opened Modem

  /** The strength of the preamble at `i`, zero where it does not fit. */
  function Strength(samples: seq<Complex>, i: nat): real {
    if i + CHIPS <= |samples| then Power(samples, i) else 0.0
  }

  predicate Crosses(samples: seq<Complex>, i: nat) { Strength(samples, i) >= 64.0 }

  /** Nothing before `first` reaches the threshold, and `first` does. */
  ghost predicate FirstCrossing(samples: seq<Complex>, first: nat) {
    Crosses(samples, first) && forall i: nat | i < first :: !Crosses(samples, i)
  }

  /** All of `first` to `i` reach the threshold. */
  ghost predicate SameExcursion(samples: seq<Complex>, first: nat, i: nat) {
    first <= i && forall j: nat | first <= j <= i :: Crosses(samples, j)
  }

  /** The first strongest position of the excursion that begins at `first`. */
  ghost predicate Peak(samples: seq<Complex>, first: nat, start: nat) {
    && SameExcursion(samples, first, start)
    && (forall i: nat | SameExcursion(samples, first, i) :: Strength(samples, i) <= Strength(samples, start))
    && (forall i: nat | first <= i < start :: Strength(samples, i) < Strength(samples, start))
  }

  /** The first strongest position of the excursion that begins at the first crossing. */
  ghost predicate Start(samples: seq<Complex>, start: nat) {
    exists first: nat :: FirstCrossing(samples, first) && Peak(samples, first, start)
  }

  /** `best` is the first strongest position from `first` up to, and without, `s`. */
  ghost predicate BestBefore(samples: seq<Complex>, first: nat, s: nat, best: nat) {
    && first <= best < s && SameExcursion(samples, first, s - 1)
    && (forall i: nat | first <= i < s :: Strength(samples, i) <= Strength(samples, best))
    && (forall i: nat | first <= i < best :: Strength(samples, i) < Strength(samples, best))
  }

  lemma BestMoves(samples: seq<Complex>, first: nat, s: nat, best: nat)
    requires BestBefore(samples, first, s, best) && Crosses(samples, s)
    ensures BestBefore(samples, first, s + 1, if Strength(samples, s) > Strength(samples, best) then s else best)
  {
  }

  lemma BestIsPeak(samples: seq<Complex>, first: nat, s: nat, best: nat)
    requires BestBefore(samples, first, s, best) && !Crosses(samples, s)
    ensures Peak(samples, first, best)
  {
    forall i: nat | SameExcursion(samples, first, i)
      ensures Strength(samples, i) <= Strength(samples, best)
    {
      assert i < s;
    }
  }

  /** The climb ends at the peak. */
  lemma {:induction false} ClimbFindsPeak(samples: seq<Complex>, first: nat, best: nat, s: nat)
    requires s + CHIPS <= |samples| + 1 && BestBefore(samples, first, s, best)
    ensures Peak(samples, first, Climb(samples, best, s))
    decreases |samples| - s
  {
    assert Crosses(samples, best);
    if Crosses(samples, s) {
      BestMoves(samples, first, s, best);
      ClimbFindsPeak(samples, first, if Strength(samples, s) > Strength(samples, best) then s else best, s + 1);
    } else {
      BestIsPeak(samples, first, s, best);
    }
  }

  lemma PeakUnique(samples: seq<Complex>, first: nat, a: nat, b: nat)
    requires Peak(samples, first, a) && Peak(samples, first, b)
    ensures a == b
  {
    assert SameExcursion(samples, first, a) && SameExcursion(samples, first, b);
  }

  lemma SeekIsFirst(samples: seq<Complex>, first: nat)
    requires FirstCrossing(samples, first)
    ensures first + CHIPS <= |samples| && Seek(samples, 0) == first
  {
    var f := Seek(samples, 0);
    assert f < first ==> !Crosses(samples, f);
    assert Crosses(samples, first);
  }

  /** Demodulation reads the frame at the start, the only one there is. */
  lemma ReadsAtStart(samples: seq<Complex>, start: nat)
    requires |samples| >= CHIPS + 8 && Start(samples, start)
    ensures start + CHIPS <= |samples| && Demodulated(samples) == ReadAt(samples, start)
  {
    var first: nat :| FirstCrossing(samples, first) && Peak(samples, first, start);
    SeekIsFirst(samples, first);
    ClimbFindsPeak(samples, first, first, first + 1);
    PeakUnique(samples, first, start, Climb(samples, first, first + 1));
    assert Crosses(samples, start);
  }

  lemma StartCrosses(samples: seq<Complex>, start: nat)
    requires Start(samples, start)
    ensures Crosses(samples, start)
  {
  }

  /** A start exists exactly when some position reaches the threshold; without one nothing is received. */
  lemma NoStartNothing(samples: seq<Complex>)
    ensures (exists i: nat :: Crosses(samples, i)) <==> exists start: nat :: Start(samples, start)
    ensures (forall i: nat :: !Crosses(samples, i)) ==> Demodulated(samples) == None
  {
    if i: nat :| Crosses(samples, i) {
      var f := Seek(samples, 0);
      assert FirstCrossing(samples, f);
      ClimbFindsPeak(samples, f, f, f + 1);
      assert Start(samples, Climb(samples, f, f + 1));
    } else {
      forall start: nat | Start(samples, start)
        ensures Crosses(samples, start)
      {
        StartCrosses(samples, start);
      }
      if |samples| >= CHIPS + 8 {
        assert !Crosses(samples, Seek(samples, 0));
      }
    }
  }

  // ---------------------------------------------------------------- frames after other samples

  lemma {:induction false} CorrShift(samples: seq<Complex>, lead: nat, s: nat, k: nat)
    requires k <= CHIPS && lead + s + k <= |samples|
    ensures Corr(samples, lead + s, k) == Corr(samples[lead..], s, k)
  {
    if k > 0 {
      CorrShift(samples, lead, s, k - 1);
    }
  }

  lemma StrengthShift(samples: seq<Complex>, lead: nat, s: nat)
    requires lead <= |samples|
    ensures Strength(samples, lead + s) == Strength(samples[lead..], s)
  {
    if lead + s + CHIPS <= |samples| {
      CorrShift(samples, lead, s, CHIPS);
    }
  }

  lemma {:induction false} BitsShift(samples: seq<Complex>, lead: nat, at: nat, k: nat, flip: bool)
    requires lead + at + k <= |samples|
    ensures Bits(samples, lead + at, k, flip) == Bits(samples[lead..], at, k, flip)
  {
    if k > 0 {
      BitsShift(samples, lead, at, k - 1, flip);
    }
  }

  lemma DecodeShift(samples: seq<Complex>, lead: nat, at: nat, n: nat, flip: bool)
    requires lead <= |samples|
    ensures Decode(samples, lead + at, n, flip) == Decode(samples[lead..], at, n, flip)
  {
    if lead + at + 8 * n <= |samples| {
      forall b | 0 <= b < n
        ensures ByteAt(samples, lead + at + 8 * b, flip) == ByteAt(samples[lead..], at + 8 * b, flip)
      {
        BitsShift(samples, lead, at + 8 * b, 8, flip);
      }
      assert Decode(samples, lead + at, n, flip).value == Decode(samples[lead..], at, n, flip).value;
    }
  }

  lemma ReadShift(samples: seq<Complex>, lead: nat)
    requires lead + CHIPS <= |samples|
    ensures ReadAt(samples, lead) == ReadAt(samples[lead..], 0)
  {
    var tail := samples[lead..];
    CorrShift(samples, lead, 0, CHIPS);
    var flip := Corr(tail, 0, CHIPS).re < 0.0;
    DecodeShift(samples, lead, CHIPS, 1, flip);
    var len := Decode(tail, CHIPS, 1, flip);
    if len.Some? {
      DecodeShift(samples, lead, CHIPS + 8, len.value[0], flip);
    }
  }

  /** Every crossing before `lead` is in one excursion with it, and weaker. */
  ghost predicate Outshone(samples: seq<Complex>, lead: nat) {
    forall i: nat | i < lead && Crosses(samples, i) ::
      SameExcursion(samples, i, lead) && Strength(samples, i) < Strength(samples, lead)
  }

  /** A frame's own start crosses, the position after it does not. */
  lemma FrameCrosses(samples: seq<Complex>, payload: seq<byte>, lead: nat, flip: bool)
    requires lead <= |samples| && Received(samples[lead..], payload, 0, flip, NOISE)
    ensures Crosses(samples, lead) && !Crosses(samples, lead + 1)
  {
    var tail := samples[lead..];
    PowerAt(tail, payload, 0, flip, 0);
    PowerAt(tail, payload, 0, flip, 1);
    StrengthShift(samples, lead, 0);
    StrengthShift(samples, lead, 1);
  }

  lemma OutshoneIsPeak(samples: seq<Complex>, lead: nat, first: nat)
    requires Outshone(samples, lead) && Crosses(samples, lead) && !Crosses(samples, lead + 1)
    requires first <= lead && FirstCrossing(samples, first)
    ensures Peak(samples, first, lead)
  {
    assert first < lead ==> SameExcursion(samples, first, lead);
    forall i: nat | SameExcursion(samples, first, i)
      ensures Strength(samples, i) <= Strength(samples, lead)
    {
      ExcursionEnds(samples, first, i, lead + 1);
      assert Crosses(samples, i);
    }
  }

  lemma ExcursionEnds(samples: seq<Complex>, first: nat, i: nat, e: nat)
    requires SameExcursion(samples, first, i) && first <= e && !Crosses(samples, e)
    ensures i < e
  {
  }

  /** After any samples whatever, the frame's start is taken if and only if it outshines the crossings before it. */
  lemma StartIffOutshone(samples: seq<Complex>, payload: seq<byte>, lead: nat, flip: bool)
    requires lead <= |samples| && Received(samples[lead..], payload, 0, flip, NOISE)
    ensures Start(samples, lead) <==> Outshone(samples, lead)
  {
    FrameCrosses(samples, payload, lead, flip);
    if Outshone(samples, lead) {
      var first := FirstOf(samples, lead);
      OutshoneIsPeak(samples, lead, first);
    }
    if Start(samples, lead) {
      StartOutshines(samples, lead);
    }
  }

  lemma StartOutshines(samples: seq<Complex>, lead: nat)
    requires Start(samples, lead)
    ensures Outshone(samples, lead)
  {
  }

  lemma {:induction false} FirstOf(samples: seq<Complex>, i: nat) returns (first: nat)
    requires Crosses(samples, i)
    ensures first <= i && FirstCrossing(samples, first)
  {
    if j: nat :| j < i && Crosses(samples, j) {
      first := FirstOf(samples, j);
    } else {
      first := i;
    }
  }

  /** And then its payload is returned. */
  lemma DecodesAfterAnything(samples: seq<Complex>, payload: seq<byte>, lead: nat, flip: bool)
    requires lead <= |samples| && Received(samples[lead..], payload, 0, flip, NOISE) && Outshone(samples, lead)
    ensures Demodulated(samples) == Some(payload)
  {
    var tail := samples[lead..];
    StartIffOutshone(samples, payload, lead, flip);
    ReadsAtStart(samples, lead);
    ReadShift(samples, lead);
    DemodulateInvertsModulate(tail, payload, 0, flip);
    SeekFinds(tail, payload, 0, flip);
  }

  /** One arbitrary sample before the frame does no harm as long as the correlation there stays below the peak, above the threshold or not. */
  lemma DecodesAfterOneSample(x: Complex, frame: seq<Complex>, payload: seq<byte>, flip: bool)
    requires Received(frame, payload, 0, flip, NOISE)
    requires Strength([x] + frame, 0) < Strength([x] + frame, 1)
    ensures Demodulated([x] + frame) == Some(payload)
  {
    var samples := [x] + frame;
    assert samples[1..] == frame;
    FrameCrosses(samples, payload, 1, flip);
    DecodesAfterAnything(samples, payload, 1, flip);
  }

  // ---------------------------------------------------------------- frames cut short

  lemma {:induction false} CorrCut(samples: seq<Complex>, n: nat, s: nat, k: nat)
    requires k <= CHIPS && s + k <= n <= |samples|
    ensures Corr(samples[..n], s, k) == Corr(samples, s, k)
  {
    if k > 0 {
      CorrCut(samples, n, s, k - 1);
    }
  }

  lemma {:induction false} BitsCut(samples: seq<Complex>, n: nat, at: nat, k: nat, flip: bool)
    requires at + k <= n <= |samples|
    ensures Bits(samples[..n], at, k, flip) == Bits(samples, at, k, flip)
  {
    if k > 0 {
      BitsCut(samples, n, at, k - 1, flip);
    }
  }

  lemma CutStart(samples: seq<Complex>, payload: seq<byte>, lead: nat, flip: bool, n: nat)
    requires Received(samples, payload, lead, flip, NOISE) && n <= lead + FrameLength(payload)
    ensures if lead + CHIPS <= n then Start(samples[..n], lead) else forall i: nat :: !Crosses(samples[..n], i)
  {
    var cut := samples[..n];
    forall i: nat | i <= lead + 1 && i + CHIPS <= n
      ensures Crosses(cut, i) <==> i == lead
    {
      CorrCut(samples, n, i, CHIPS);
      PowerAt(samples, payload, lead, flip, i);
    }
    if lead + CHIPS <= n {
      assert FirstCrossing(cut, lead);
      OutshoneIsPeak(cut, lead, lead);
    }
  }

  lemma CutRead(samples: seq<Complex>, payload: seq<byte>, lead: nat, flip: bool, n: nat)
    requires Received(samples, payload, lead, flip, NOISE) && lead + CHIPS <= n < lead + FrameLength(payload)
    ensures ReadAt(samples[..n], lead) == None
  {
    var cut, data := samples[..n], lead + CHIPS;
    CorrCut(samples, n, lead, CHIPS);
    PowerAt(samples, payload, lead, flip, lead);
    if data + 8 <= n {
      BitsCut(samples, n, data, 8, flip);
      LengthSurvives(samples, payload, lead, flip);
      assert Decode(cut, data, 1, flip).value[0] == |payload|;
    }
  }

  /** Of a frame, the payload is returned if and only if all of it has arrived; until then nothing is. */
  lemma ReceivedIffComplete(samples: seq<Complex>, payload: seq<byte>, lead: nat, flip: bool, n: nat)
    requires Received(samples, payload, lead, flip, NOISE) && n <= |samples|
    ensures Demodulated(samples[..n]) == if n >= lead + FrameLength(payload) then Some(payload) else None
  {
    var cut := samples[..n];
    if n >= lead + FrameLength(payload) {
      DemodulateInvertsModulate(cut, payload, lead, flip);
    } else {
      CutStart(samples, payload, lead, flip, n);
      if lead + CHIPS <= n && n >= CHIPS + 8 {
        ReadsAtStart(cut, lead);
        CutRead(samples, payload, lead, flip, n);
      } else {
        NoStartNothing(cut);
      }
    }
  }
}
