/** When a session rekeys: the epoch and counter of every frame it seals, and what a peer that does not follow can open. */
module Cadence {
  import opened Widths
  import opened Bytes
  import opened Session
  import Window = Replay

  datatype Message = Message(aad: seq<byte>, text: seq<byte>)

  /** The session after sealing the messages. */
  function AfterSeals(s: State, ms: seq<Message>): State {
    if ms == [] then s
    else SealStep(AfterSeals(s, ms[..|ms| - 1]), ms[|ms| - 1].aad, ms[|ms| - 1].text).0
  }

  /** What sealing message `i` answered. */
  function SealOf(s: State, ms: seq<Message>, i: nat): Result<Frame>
    requires i < |ms|
  {
    SealStep(AfterSeals(s, ms[..i]), ms[i].aad, ms[i].text).1
  }

  /** 2^20 frames to each ratchet step. */
  const BUDGET: nat := 1048576

  lemma NextSlot(i: nat)
    requires i > 0
    ensures if (i - 1) % BUDGET + 1 == BUDGET then i / BUDGET == (i - 1) / BUDGET + 1 && i % BUDGET == 0
      else i / BUDGET == (i - 1) / BUDGET && i % BUDGET == (i - 1) % BUDGET + 1
  {
    var q, r := (i - 1) / BUDGET, (i - 1) % BUDGET;
    assert i == BUDGET * q + (r + 1);
    if r + 1 == BUDGET {
      assert i == BUDGET * (q + 1);
    }
  }

  /** Where the session stands after `n` seals. */
  lemma {:induction false} SealsDone(shared: nat, initiator: bool, ms: seq<Message>)
    ensures var s, n := AfterSeals(Initial(shared, initiator), ms), |ms|;
      && s.shared == shared && s.dir == (if initiator then 0 else 1) && s.accepted == {}
      && if n == 0 then s.index == 0 && s.tx == 0 else s.index == (n - 1) / BUDGET && s.tx == (n - 1) % BUDGET + 1
  {
    if ms != [] {
      SealsDone(shared, initiator, ms[..|ms| - 1]);
      if |ms| > 1 {
        NextSlot(|ms| - 1);
      }
    }
  }

  /** Frame `i` is sealed at ratchet step i / 2^20 with counter i mod 2^20. */
  lemma SlotOfFrame(shared: nat, initiator: bool, ms: seq<Message>, i: nat)
    requires i < |ms|
    ensures var r := Rekeyed(AfterSeals(Initial(shared, initiator), ms[..i]));
      r.shared == shared && r.dir == (if initiator then 0 else 1) && r.index == i / 1048576 && r.tx == i % 1048576
  {
    SealsDone(shared, initiator, ms[..i]);
    if i > 0 {
      NextSlot(i);
    }
  }

  /**
    A session that only seals writes epoch (i / 2^20) mod 2^32 and counter
    i mod 2^20 on its i-th frame, in that order, and never refuses.
   */
  lemma FrameCadence(shared: nat, initiator: bool, ms: seq<Message>, i: nat)
    requires i < |ms|
    ensures var r := SealOf(Initial(shared, initiator), ms, i);
      && r.Ok?
      && r.value.prefix == BE(i / 1048576 % 0x1_0000_0000, 4) + BE(i % 1048576, 8)
      && WireEpoch(r.value) == i / 1048576 % 0x1_0000_0000 && WireCounter(r.value) == i % 1048576
      && r.value.ct == Enc(KeyAt(shared, i / 1048576),
           MakeNonce(if initiator then 0 else 1, i / 1048576 % 0x1_0000_0000, i % 1048576), ms[i].aad, ms[i].text)
  {
    SealsDone(shared, initiator, ms[..i]);
    SlotOfFrame(shared, initiator, ms, i);
    var r := SealOf(Initial(shared, initiator), ms, i);
    PrefixRoundTrip(i / 1048576 % TWO_32, i % 1048576, r.value.ct);
  }

  /** `seal` refuses exactly at the hard cap of 2^24, and then changes nothing. */
  lemma RefusesAtCap(s: State, aad: seq<byte>, msg: seq<byte>)
    ensures SealStep(s, aad, msg).1 == Err(RekeyRequired) <==> s.tx >= 16777216
    ensures SealStep(s, aad, msg).1.Err? ==> SealStep(s, aad, msg) == (s, Err(RekeyRequired))
  {
  }

  // ---------------------------------------------------------------- a peer that stays at step 0

  /** The peer after opening the first `n` frames, each delivered once and in order. */
  function AfterOpens(peer: State, s: State, ms: seq<Message>, n: nat): State
    requires n <= |ms|
    decreases n
  {
    if n == 0 then peer
    else
      var before := AfterOpens(peer, s, ms, n - 1);
      match SealOf(s, ms, n - 1)
      case Ok(f) => OpenStep(before, ms[n - 1].aad, f).0
      case Err(_) => before
  }

  ghost predicate Below(accepted: set<nat>, n: nat) {
    forall a | a in accepted :: a < n
  }

  /** Opening frame `i` in turn, at step 0. */
  lemma OpensInTurn(shared: nat, initiator: bool, ms: seq<Message>, i: nat, peer: State)
    requires i < |ms| && Below(peer.accepted, i)
    requires peer.shared == shared && peer.dir == (if initiator then 1 else 0) && peer.index == 0
    ensures SealOf(Initial(shared, initiator), ms, i).Ok?
    ensures var f := SealOf(Initial(shared, initiator), ms, i).value;
      if i < 1048576
      then OpenStep(peer, ms[i].aad, f) == (peer.(accepted := peer.accepted + {i}), Ok(ms[i].text))
      else OpenStep(peer, ms[i].aad, f) == (peer, Err(Auth))
  {
    FrameCadence(shared, initiator, ms, i);
    KeyInjective(shared, 0, shared, i / 1048576);
    var f := SealOf(Initial(shared, initiator), ms, i).value;
    if i < 1048576 {
      assert i / 1048576 == 0 && i % 1048576 == i;
      assert Window.Fresh(peer.accepted, i);
    } else {
      assert i / 1048576 >= 1;
      assert f.ct.key != KeyAt(shared, 0);
    }
  }

  lemma {:induction false} PeerStays(shared: nat, initiator: bool, ms: seq<Message>, n: nat)
    requires n <= |ms|
    ensures var p := AfterOpens(Initial(shared, !initiator), Initial(shared, initiator), ms, n);
      p.shared == shared && p.dir == (if initiator then 1 else 0) && p.index == 0 && Below(p.accepted, n)
  {
    if n > 0 {
      PeerStays(shared, initiator, ms, n - 1);
      OpensInTurn(shared, initiator, ms, n - 1,
                  AfterOpens(Initial(shared, !initiator), Initial(shared, initiator), ms, n - 1));
    }
  }

  /** A peer that never ratchets, given every frame once and in order, opens exactly the first 2^20; the rest fail authentication. */
  lemma LockStepNeeded(shared: nat, initiator: bool, ms: seq<Message>, i: nat)
    requires i < |ms|
    ensures SealOf(Initial(shared, initiator), ms, i).Ok?
    ensures var f, peer := SealOf(Initial(shared, initiator), ms, i).value,
                           AfterOpens(Initial(shared, !initiator), Initial(shared, initiator), ms, i);
      OpenStep(peer, ms[i].aad, f).1 == if i < 1048576 then Ok(ms[i].text) else Err(Auth)
  {
    PeerStays(shared, initiator, ms, i);
    OpensInTurn(shared, initiator, ms, i, AfterOpens(Initial(shared, !initiator), Initial(shared, initiator), ms, i));
  }
}
