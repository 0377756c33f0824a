/**
  The 64-frame sliding replay window (the anti-replay scheme of section 3.4.3
  of RFC 4303) and what it does to whole sequences of counters.
 */
module Replay {
  import opened Widths
  import opened Words

  const WIDTH: nat := 64

  /** A counter is fresh when it was never accepted and nothing 64 or more ahead of it was. */
  predicate Fresh(accepted: set<nat>, ctr: nat) {
    ctr !in accepted && forall a | a in accepted :: a < ctr + WIDTH
  }

  function Record(accepted: set<nat>, ctr: nat): (r: set<nat>) {
    if Fresh(accepted, ctr) then accepted + {ctr} else accepted
  }

  /** Freshness in the terms of the code's three branches. */
  lemma FreshByMaximum(accepted: set<nat>, ctr: nat, max: nat)
    requires max in accepted && forall a | a in accepted :: a <= max
    ensures Fresh(accepted, ctr) <==> ctr > max || (max - ctr <= 63 && ctr !in accepted)
  {
  }

  /** Bit `d` of the bitmap says whether `highest - d` was accepted. */
  ghost predicate Mirrors(accepted: set<nat>, highest: nat, bitmap: nat) {
    && bitmap < TWO_64
    && highest in accepted
    && (forall a | a in accepted :: a <= highest)
    && (forall d | 0 <= d < WIDTH :: Bit(bitmap, d) <==> d <= highest && highest - d in accepted)
  }

  class ReplayWindow {
    var highest: nat
    var bitmap: nat
    var seenAny: bool
    /** Every counter accepted so far. */
    ghost var accepted: set<nat>

    ghost predicate Valid()
      reads this
    {
      if seenAny then Mirrors(accepted, highest, bitmap) else accepted == {}
    }

    constructor ()
      ensures Valid() && accepted == {}
    {
      highest, bitmap, seenAny, accepted := 0, 0, false, {};
    }

    method CheckAndSet(ctr: nat) returns (ok: bool)
      requires Valid()
      modifies this
      ensures Valid()
      ensures ok <==> Fresh(old(accepted), ctr)
      ensures accepted == Record(old(accepted), ctr)
    {
      if !seenAny {
        seenAny, highest, bitmap := true, ctr, 1;
        accepted := {ctr};
        FirstMirror(ctr);
        return true;
      }
      FreshByMaximum(accepted, ctr, highest);
      if ctr > highest {
        SlideMirror(accepted, highest, bitmap, ctr);
        var shift := ctr - highest;
        bitmap := if shift >= WIDTH then 1 else Or(Shl(bitmap, shift, 64), 1);
        highest := ctr;
        accepted := accepted + {ctr};
        ok := true;
      } else {
        var diff := highest - ctr;
        if diff >= WIDTH {
          return false;
        }
        MarkMirror(accepted, highest, bitmap, ctr);
        var mask := Shl(1, diff, 64);
        if And(bitmap, mask) != 0 {
          return false;
        }
        bitmap := Or(bitmap, mask);
        accepted := accepted + {ctr};
        ok := true;
      }
    }
  }

  lemma FirstMirror(ctr: nat)
    ensures Mirrors({ctr}, ctr, 1)
  {
    assert Pow2(0) == 1;
    forall d | 0 <= d < WIDTH
      ensures Bit(1, d) <==> d == 0
    {
      MaskBit(0, d);
    }
  }

  /** A counter past the highest slides the bitmap and becomes bit 0. */
  lemma SlideMirror(accepted: set<nat>, highest: nat, bitmap: nat, ctr: nat)
    requires Mirrors(accepted, highest, bitmap) && ctr > highest
    ensures var shift := ctr - highest;
      Mirrors(accepted + {ctr}, ctr, if shift >= WIDTH then 1 else Or(Shl(bitmap, shift, 64), 1))
  {
    var shift := ctr - highest;
    var s := Shl(bitmap, shift, 64);
    var b := if shift >= WIDTH then 1 else Or(s, 1);
    FirstMirror(ctr);
    assert b < TWO_64 by {
      Pow2Of64();
      OrBound(s, 1, 64);
    }
    forall d | 0 <= d < WIDTH
      ensures Bit(b, d) <==> d <= ctr && ctr - d in accepted + {ctr}
    {
      ShlBit(bitmap, shift, 64, d);
      OrBit(s, 1, d);
      if d >= shift {
        assert ctr - d == highest - (d - shift);
      }
    }
  }

  /** Testing and setting the bit of a counter at most 63 behind the highest. */
  lemma MarkMirror(accepted: set<nat>, highest: nat, bitmap: nat, ctr: nat)
    requires Mirrors(accepted, highest, bitmap) && ctr <= highest < ctr + WIDTH
    ensures var mask := Shl(1, highest - ctr, 64);
      && (And(bitmap, mask) != 0 <==> ctr in accepted)
      && Mirrors(accepted + {ctr}, highest, Or(bitmap, mask))
  {
    var diff := highest - ctr;
    assert Pow2(0) == 1;
    ShlPow2(0, diff, 64);
    AndMask(bitmap, diff);
    MarkedMirror(accepted, highest, bitmap, ctr, Or(bitmap, Pow2(diff)));
  }

  lemma MarkedMirror(accepted: set<nat>, highest: nat, bitmap: nat, ctr: nat, marked: nat)
    requires Mirrors(accepted, highest, bitmap) && ctr <= highest < ctr + WIDTH
    requires marked == Or(bitmap, Pow2(highest - ctr))
    ensures Mirrors(accepted + {ctr}, highest, marked)
  {
    var diff := highest - ctr;
    assert marked < TWO_64 by {
      Pow2Of64();
      Pow2Mono(diff, 63);
      OrBound(bitmap, Pow2(diff), 64);
    }
    forall d | 0 <= d < WIDTH
      ensures Bit(marked, d) <==> d <= highest && highest - d in accepted + {ctr}
    {
      OrBit(bitmap, Pow2(diff), d);
      MaskBit(diff, d);
    }
  }

  // ---------------------------------------------------------------- whole sequences

  /** The counters accepted out of the sequence `cs`, by a window that starts empty. */
  ghost function AcceptedFrom(cs: seq<nat>): (s: set<nat>) {
    if cs == [] then {} else Record(AcceptedFrom(cs[..|cs| - 1]), cs[|cs| - 1])
  }

  /** The window accepts the i-th arrival. */
  ghost predicate Accepts(cs: seq<nat>, i: nat)
    requires i < |cs|
  {
    Fresh(AcceptedFrom(cs[..i]), cs[i])
  }

  ghost predicate FirstArrival(cs: seq<nat>, i: nat)
    requires i < |cs|
  {
    cs[i] !in cs[..i]
  }

  /** Nothing that arrived before is 64 or more ahead of arrival `i`. */
  ghost predicate InTime(cs: seq<nat>, i: nat)
    requires i < |cs|
  {
    forall j | 0 <= j < i :: cs[j] < cs[i] + WIDTH
  }

  /** Only arrivals are accepted. */
  lemma {:induction false} AcceptedArrived(cs: seq<nat>)
    ensures forall a | a in AcceptedFrom(cs) :: a in cs
  {
    if cs != [] {
      AcceptedArrived(cs[..|cs| - 1]);
    }
  }

  /** Something at least as high as every arrival was accepted. */
  lemma {:induction false} ArrivalDominated(cs: seq<nat>, i: nat) returns (a: nat)
    requires i < |cs|
    ensures a in AcceptedFrom(cs) && cs[i] <= a
  {
    var n := |cs| - 1;
    var acc := AcceptedFrom(cs[..n]);
    if i < n {
      a := ArrivalDominated(cs[..n], i);
    } else if Fresh(acc, cs[n]) || cs[n] in acc {
      a := cs[n];
    } else {
      a :| a in acc && a >= cs[n] + WIDTH;
    }
  }

  lemma {:induction false} AcceptedGrows(cs: seq<nat>, i: nat)
    requires i < |cs|
    ensures Accepts(cs, i) ==> cs[i] in AcceptedFrom(cs)
  {
    var n := |cs| - 1;
    if i < n {
      assert cs[..n][..i] == cs[..i];
      AcceptedGrows(cs[..n], i);
    }
  }

  /** No counter is accepted twice, whatever the arrival order. */
  lemma AtMostOnce(cs: seq<nat>, i: nat, j: nat)
    requires i < j < |cs| && Accepts(cs, i) && Accepts(cs, j)
    ensures cs[i] != cs[j]
  {
    assert cs[..j][..i] == cs[..i];
    AcceptedGrows(cs[..j], i);
  }

  /** A first arrival is accepted exactly when it is in time; a repeat never is if its first arrival was. */
  lemma FirstArrivalAccepted(cs: seq<nat>, i: nat)
    requires i < |cs| && FirstArrival(cs, i)
    ensures Accepts(cs, i) <==> InTime(cs, i)
  {
    AcceptedArrived(cs[..i]);
    if Accepts(cs, i) {
      forall j | 0 <= j < i
        ensures cs[j] < cs[i] + WIDTH
      {
        var _ := ArrivalDominated(cs[..i], j);
      }
    }
  }

  /**
    The window delivers every distinct counter exactly once if and only if no
    counter arrives for the first time after one 64 or more ahead of it.
   */
  lemma ExactlyOnceIffInTime(cs: seq<nat>)
    ensures (forall i | 0 <= i < |cs| :: Accepts(cs, i) <==> FirstArrival(cs, i))
       <==> (forall i | 0 <= i < |cs| && FirstArrival(cs, i) :: InTime(cs, i))
  {
    forall i | 0 <= i < |cs| && FirstArrival(cs, i)
      ensures Accepts(cs, i) <==> InTime(cs, i)
    {
      FirstArrivalAccepted(cs, i);
    }
    if forall i | 0 <= i < |cs| && FirstArrival(cs, i) :: InTime(cs, i) {
      forall i | 0 <= i < |cs| && !FirstArrival(cs, i)
        ensures !Accepts(cs, i)
      {
        var f := FirstIndex(cs, i);
        assert Accepts(cs, f);
        if Accepts(cs, i) {
          AtMostOnce(cs, f, i);
        }
      }
    }
  }

  lemma {:induction false} FirstIndex(cs: seq<nat>, i: nat) returns (f: nat)
    requires i < |cs|
    ensures f <= i && cs[f] == cs[i] && FirstArrival(cs, f)
  {
    if FirstArrival(cs, i) {
      f := i;
    } else {
      var j :| 0 <= j < i && cs[..i][j] == cs[i];
      f := FirstIndex(cs, j);
    }
  }
}
