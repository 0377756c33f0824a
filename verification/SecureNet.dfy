/**
  Any number of session pairs over a hostile transport.

  The ends seal, ratchet and open in any interleaving.  What is delivered is
  arbitrary: any header bytes, any epoch and counter prefix, and any
  ciphertext that some end really produced (or bytes that none did).
 */
module SecureNet {
  import opened Widths
  import opened Bytes
  import opened Session
  import opened Wire
  import Window = Replay

  /** Node `me`'s end of its link to `peer`. */
  datatype End = End(me: u32, peer: u32)

  function Peer(e: End): End { End(e.peer, e.me) }

  /** One encryption: who did it, at which ratchet index and counter, and the ciphertext. */
  datatype Sent = Sent(from: End, index: nat, ctr: nat, ct: Sealed)

  datatype Net = Net(ends: map<End, State>, log: seq<Sent>)

  /** One session pair per link: the two ends share a secret no other link has, with opposite directions. */
  ghost predicate WellPaired(ends: map<End, State>) {
    && (forall e | e in ends ::
      && Peer(e) in ends
      && ends[Peer(e)].dir == 1 - ends[e].dir
      && ends[Peer(e)].shared == ends[e].shared)
    && (forall e, f | e in ends && f in ends :: ends[e].shared == ends[f].shared ==> f == e || f == Peer(e))
  }

  ghost predicate InitNet(n: Net) {
    && WellPaired(n.ends)
    && n.log == []
    && forall e | e in n.ends :: n.ends[e] == Initial(n.ends[e].shared, n.ends[e].dir == 0)
  }

  // ---------------------------------------------------------------- steps

  datatype Event =
    | DoSeal(e: End, aad: seq<byte>, msg: seq<byte>)
    | DoRatchet(e: End)
    | DoOpen(e: End, aad: seq<byte>, frame: Frame)

  /** Ciphertexts are not forged: what authenticates was produced by some end. */
  ghost predicate Deliverable(n: Net, f: Frame) {
    f.ct.Enc? ==> exists i :: 0 <= i < |n.log| && n.log[i].ct == f.ct
  }

  ghost predicate Enabled(n: Net, ev: Event) {
    ev.e in n.ends && (ev.DoOpen? ==> Deliverable(n, ev.frame))
  }

  datatype Output = Sealing(frame: Result<Frame>) | Ratcheting | Opening(msg: Result<seq<byte>>)

  ghost function Answer(n: Net, ev: Event): Output
    requires Enabled(n, ev)
  {
    match ev
    case DoSeal(e, aad, msg) => Sealing(SealStep(n.ends[e], aad, msg).1)
    case DoRatchet(e) => Ratcheting
    case DoOpen(e, aad, f) => Opening(OpenStep(n.ends[e], aad, f).1)
  }

  ghost function Step(n: Net, ev: Event): Net
    requires Enabled(n, ev)
  {
    match ev
    case DoSeal(e, aad, msg) =>
      var r, (s, res) := Rekeyed(n.ends[e]), SealStep(n.ends[e], aad, msg);
      Net(n.ends[e := s], if res.Ok? then n.log + [Sent(e, r.index, r.tx, res.value.ct)] else n.log)
    case DoRatchet(e) => n.(ends := n.ends[e := Ratcheted(n.ends[e])])
    case DoOpen(e, aad, f) => n.(ends := n.ends[e := OpenStep(n.ends[e], aad, f).0])
  }

  ghost predicate EnabledRun(n: Net, evs: seq<Event>)
    decreases |evs|
  {
    evs == [] || (Enabled(n, evs[0]) && EnabledRun(Step(n, evs[0]), evs[1..]))
  }

  ghost function Run(n: Net, evs: seq<Event>): Net
    requires EnabledRun(n, evs)
    decreases |evs|
  {
    if evs == [] then n else Run(Step(n, evs[0]), evs[1..])
  }

  // ---------------------------------------------------------------- the invariant

  ghost predicate Before(i: nat, c: nat, j: nat, d: nat) {
    i < j || (i == j && c < d)
  }

  /** The log entry is a real encryption of its sender, from before the sender's current counter. */
  ghost predicate Genuine(n: Net, s: Sent) {
    && s.from in n.ends
    && s.ctr < REKEY_EVERY_FRAMES
    && s.ct.Enc?
    && s.ct.key == KeyAt(n.ends[s.from].shared, s.index)
    && s.ct.nonce == MakeNonce(n.ends[s.from].dir, s.index % TWO_32, s.ctr)
    && Before(s.index, s.ctr, n.ends[s.from].index, n.ends[s.from].tx)
  }

  ghost predicate Inv(n: Net) {
    && WellPaired(n.ends)
    && (forall e | e in n.ends :: n.ends[e].tx <= REKEY_EVERY_FRAMES)
    && (forall i | 0 <= i < |n.log| :: Genuine(n, n.log[i]))
    && Ordered(n.log)
  }

  /** Each end's encryptions carry strictly increasing (index, counter) pairs. */
  ghost predicate Ordered(log: seq<Sent>) {
    forall i, j | 0 <= i < j < |log| && log[i].from == log[j].from ::
      Before(log[i].index, log[i].ctr, log[j].index, log[j].ctr)
  }

  /** The parts of an end that a step never changes, and the parts that only grow. */
  ghost predicate Advances(s: State, t: State) {
    && t.shared == s.shared && t.dir == s.dir
    && (s.index < t.index || (s.index == t.index && s.tx <= t.tx && s.accepted <= t.accepted))
  }

  lemma StepAdvances(n: Net, ev: Event)
    requires Enabled(n, ev)
    ensures Step(n, ev).ends.Keys == n.ends.Keys
    ensures forall e | e in n.ends :: Advances(n.ends[e], Step(n, ev).ends[e])
    ensures |n.log| <= |Step(n, ev).log| && Step(n, ev).log[..|n.log|] == n.log
  {
  }

  lemma GenuineStays(n: Net, n': Net, s: Sent)
    requires Genuine(n, s) && s.from in n'.ends && Advances(n.ends[s.from], n'.ends[s.from])
    ensures Genuine(n', s)
  {
  }

  lemma PairedStays(ends: map<End, State>, ends': map<End, State>)
    requires WellPaired(ends) && ends'.Keys == ends.Keys
    requires forall e | e in ends :: Advances(ends[e], ends'[e])
    ensures WellPaired(ends')
  {
  }

  lemma CountersStay(n: Net, ev: Event)
    requires Enabled(n, ev) && forall e | e in n.ends :: n.ends[e].tx <= REKEY_EVERY_FRAMES
    ensures var n' := Step(n, ev); forall e | e in n'.ends :: n'.ends[e].tx <= REKEY_EVERY_FRAMES
  {
  }

  lemma StepKeepsLog(n: Net, ev: Event)
    requires Inv(n) && Enabled(n, ev)
    ensures var n' := Step(n, ev); Ordered(n'.log) && forall i | 0 <= i < |n'.log| :: Genuine(n', n'.log[i])
  {
    var n' := Step(n, ev);
    StepAdvances(n, ev);
    LogStays(n, n');
    if ev.DoSeal? {
      SealIsNext(n, ev.e, ev.aad, ev.msg);
    } else {
      assert n'.log == n.log;
    }
  }

  lemma StepKeepsInv(n: Net, ev: Event)
    requires Inv(n) && Enabled(n, ev)
    ensures Inv(Step(n, ev))
  {
    StepAdvances(n, ev);
    PairedStays(n.ends, Step(n, ev).ends);
    CountersStay(n, ev);
    StepKeepsLog(n, ev);
  }

  lemma LogStays(n: Net, n': Net)
    requires forall i | 0 <= i < |n.log| :: Genuine(n, n.log[i])
    requires n'.ends.Keys == n.ends.Keys && forall e | e in n.ends :: Advances(n.ends[e], n'.ends[e])
    ensures forall i | 0 <= i < |n.log| :: Genuine(n', n.log[i])
  {
    forall i | 0 <= i < |n.log|
      ensures Genuine(n', n.log[i])
    {
      GenuineStays(n, n', n.log[i]);
    }
  }

  /** What `seal` appends to the log. */
  ghost function NextSent(n: Net, e: End, aad: seq<byte>, msg: seq<byte>): Sent
    requires e in n.ends
  {
    var r := Rekeyed(n.ends[e]);
    Sent(e, r.index, r.tx, Ciphertext(r, aad, msg))
  }

  /** `seal` never refuses, and uses a counter of its key that was not used before. */
  lemma SealIsNext(n: Net, e: End, aad: seq<byte>, msg: seq<byte>)
    requires Inv(n) && e in n.ends
    ensures var n', s := Step(n, DoSeal(e, aad, msg)), NextSent(n, e, aad, msg);
      && SealStep(n.ends[e], aad, msg).1 == Ok(Frame(WirePrefix(s.index % TWO_32, s.ctr), s.ct))
      && n'.log == n.log + [s] && Ordered(n'.log)
      && Genuine(n', s)
  {
    var s := NextSent(n, e, aad, msg);
    forall i | 0 <= i < |n.log| && n.log[i].from == e
      ensures Before(n.log[i].index, n.log[i].ctr, s.index, s.ctr)
    {
      assert Genuine(n, n.log[i]);
    }
  }

  lemma {:induction false} RunKeepsInv(n: Net, evs: seq<Event>)
    requires Inv(n) && EnabledRun(n, evs)
    ensures Inv(Run(n, evs))
    decreases |evs|
  {
    if evs != [] {
      StepKeepsInv(n, evs[0]);
      RunKeepsInv(Step(n, evs[0]), evs[1..]);
    }
  }

  lemma InitInv(n: Net)
    requires InitNet(n)
    ensures Inv(n)
  {
  }

  // ---------------------------------------------------------------- nonces

  lemma CountersMakeNonces(d: byte, e: nat, c: nat, e': nat, c': nat)
    requires e < TWO_32 && e' < TWO_32 && c < c' < REKEY_EVERY_FRAMES
    ensures MakeNonce(d, e, c) != MakeNonce(d, e', c')
  {
    NonceInjective(d, e, c, d, e', c');
  }

  lemma NonceUniqueOrdered(n: Net, i: nat, j: nat)
    requires Inv(n) && i < j < |n.log|
    ensures n.log[i].ct.key != n.log[j].ct.key || n.log[i].ct.nonce != n.log[j].ct.nonce
  {
    var s, t := n.log[i], n.log[j];
    assert Genuine(n, s) && Genuine(n, t);
    var a, b := n.ends[s.from], n.ends[t.from];
    if s.ct.key == t.ct.key && s.ct.nonce == t.ct.nonce {
      KeyInjective(a.shared, s.index, b.shared, t.index);
      NonceParts(a.dir, s.index % TWO_32, s.ctr);
      NonceParts(b.dir, t.index % TWO_32, t.ctr);
      assert t.from == s.from;
      CountersMakeNonces(a.dir, s.index % TWO_32, s.ctr, t.index % TWO_32, t.ctr);
    }
  }

  /** In every run, on every link, no (key, nonce) pair ever encrypts twice. */
  lemma NonceNeverReused(n: Net, evs: seq<Event>, i: nat, j: nat)
    requires InitNet(n) && EnabledRun(n, evs)
    requires i < |Run(n, evs).log| && j < |Run(n, evs).log| && i != j
    ensures var log := Run(n, evs).log;
      && log[i].ct.Enc? && log[j].ct.Enc?
      && (log[i].ct.key != log[j].ct.key || log[i].ct.nonce != log[j].ct.nonce)
  {
    InitInv(n);
    RunKeepsInv(n, evs);
    var m := Run(n, evs);
    assert Genuine(m, m.log[i]) && Genuine(m, m.log[j]);
    NonceUniqueOrdered(m, if i < j then i else j, if i < j then j else i);
  }

  ghost predicate SealedUnder(s: Sent, e: End, key: Term) {
    s.from == e && s.ct.Enc? && s.ct.key == key
  }

  /** How many log entries end `e` sealed under `key`. */
  ghost function Uses(log: seq<Sent>, e: End, key: Term): nat {
    if log == [] then 0
    else Uses(log[..|log| - 1], e, key) + if SealedUnder(log[|log| - 1], e, key) then 1 else 0
  }

  lemma SameKeyOrdered(n: Net, e: End, key: Term, i: nat, j: nat)
    requires Inv(n) && i < j < |n.log| && SealedUnder(n.log[i], e, key) && SealedUnder(n.log[j], e, key)
    ensures n.log[i].ctr < n.log[j].ctr
  {
    var s, t := n.log[i], n.log[j];
    assert Genuine(n, s) && Genuine(n, t);
    KeyInjective(n.ends[e].shared, s.index, n.ends[e].shared, t.index);
  }

  ghost predicate CountersIncrease(log: seq<Sent>, e: End, key: Term) {
    forall i, j | 0 <= i < j < |log| && SealedUnder(log[i], e, key) && SealedUnder(log[j], e, key) ::
      log[i].ctr < log[j].ctr
  }

  lemma {:induction false} UsesBelow(log: seq<Sent>, e: End, key: Term, c: nat)
    requires CountersIncrease(log, e, key)
    requires forall i | 0 <= i < |log| && SealedUnder(log[i], e, key) :: log[i].ctr < c
    ensures Uses(log, e, key) <= c
  {
    if log != [] {
      var last := log[|log| - 1];
      UsesBelow(log[..|log| - 1], e, key, if SealedUnder(last, e, key) then last.ctr else c);
    }
  }

  /** In every run the counter stays within the rekey interval, no key seals more frames than it, and `seal` succeeds. */
  lemma KeyBudget(n: Net, evs: seq<Event>, e: End, key: Term, aad: seq<byte>, msg: seq<byte>)
    requires InitNet(n) && EnabledRun(n, evs) && e in Run(n, evs).ends
    ensures var m := Run(n, evs);
      && m.ends[e].tx <= REKEY_EVERY_FRAMES
      && Uses(m.log, e, key) <= REKEY_EVERY_FRAMES
      && SealStep(m.ends[e], aad, msg).1.Ok?
  {
    InitInv(n);
    RunKeepsInv(n, evs);
    var m := Run(n, evs);
    forall i | 0 <= i < |m.log|
      ensures m.log[i].ctr < REKEY_EVERY_FRAMES
    {
      assert Genuine(m, m.log[i]);
    }
    forall i, j | 0 <= i < j < |m.log| && SealedUnder(m.log[i], e, key) && SealedUnder(m.log[j], e, key)
      ensures m.log[i].ctr < m.log[j].ctr
    {
      SameKeyOrdered(m, e, key, i, j);
    }
    UsesBelow(m.log, e, key, REKEY_EVERY_FRAMES);
  }

  // ---------------------------------------------------------------- opening

  /** Log entry `s` is one that end `e` can open now, from a frame with this epoch and counter. */
  ghost predicate Matches(n: Net, e: End, s: Sent, epoch: nat, ctr: nat)
    requires e in n.ends
  {
    && s.from == Peer(e)
    && s.index == n.ends[e].index
    && epoch == s.index % TWO_32
    && ctr % TWO_56 == s.ctr
  }

  lemma MatchExact(n: Net, e: End, i: nat, epoch: nat, ctr: nat)
    requires Inv(n) && e in n.ends && i < |n.log| && epoch < TWO_32
    ensures var ct, s := n.log[i].ct, n.ends[e];
      ct.Enc? && (ct.key == KeyAt(s.shared, s.index) && ct.nonce == MakeNonce(1 - s.dir, epoch, ctr)
        <==> Matches(n, e, n.log[i], epoch, ctr))
  {
    var t, s := n.log[i], n.ends[e];
    assert Genuine(n, t);
    var a := n.ends[t.from];
    KeyInjective(a.shared, t.index, s.shared, s.index);
    NonceInjective(a.dir, t.index % TWO_32, t.ctr, 1 - s.dir, epoch, ctr);
    assert t.ctr % TWO_56 == t.ctr;
    if a.shared == s.shared && a.dir == 1 - s.dir {
      assert t.from == e || t.from == Peer(e);
    }
  }

  /**
    `open` returns a plaintext exactly when the peer sealed that plaintext
    under this very header at the receiver's current ratchet index, and the
    wire counter is fresh.
   */
  lemma OpenExact(n: Net, e: End, aad: seq<byte>, f: Frame, msg: seq<byte>)
    requires Inv(n) && Enabled(n, DoOpen(e, aad, f)) && |f.prefix| >= 12
    ensures OpenStep(n.ends[e], aad, f).1 == Ok(msg)
      <==> (&& Window.Fresh(n.ends[e].accepted, WireCounter(f))
            && exists i :: && 0 <= i < |n.log| && n.log[i].ct == f.ct
                           && Matches(n, e, n.log[i], WireEpoch(f), WireCounter(f))
                           && f.ct.Enc? && f.ct.aad == aad && f.ct.msg == msg)
  {
    forall i | 0 <= i < |n.log|
      ensures var ct, s := n.log[i].ct, n.ends[e];
        ct.Enc? && (ct.key == KeyAt(s.shared, s.index) && ct.nonce == MakeNonce(1 - s.dir, WireEpoch(f), WireCounter(f))
          <==> Matches(n, e, n.log[i], WireEpoch(f), WireCounter(f)))
    {
      MatchExact(n, e, i, WireEpoch(f), WireCounter(f));
    }
  }

  /** Log entry `i` can never be opened again under its own counter: its receiver has ratcheted past it, or its counter is no longer fresh. */
  ghost predicate Spent(n: Net, i: nat)
    requires i < |n.log|
  {
    var s := n.log[i];
    && Peer(s.from) in n.ends
    && (s.index < n.ends[Peer(s.from)].index
        || (s.index == n.ends[Peer(s.from)].index && !Window.Fresh(n.ends[Peer(s.from)].accepted, s.ctr)))
  }

  lemma SpentStays(n: Net, ev: Event, i: nat)
    requires Enabled(n, ev) && i < |n.log| && Spent(n, i)
    ensures i < |Step(n, ev).log| && Step(n, ev).log[i] == n.log[i] && Spent(Step(n, ev), i)
  {
    StepAdvances(n, ev);
    assert Step(n, ev).log[..|n.log|][i] == n.log[i];
  }

  /** Where a successful `open` found its ciphertext. */
  lemma OpenFinds(n: Net, e: End, aad: seq<byte>, f: Frame) returns (i: nat)
    requires Inv(n) && Enabled(n, DoOpen(e, aad, f)) && OpenStep(n.ends[e], aad, f).1.Ok?
    ensures i < |n.log| && n.log[i].ct == f.ct && Matches(n, e, n.log[i], WireEpoch(f), WireCounter(f))
    ensures f.ct.Enc? && f.ct.aad == aad && OpenStep(n.ends[e], aad, f).1 == Ok(f.ct.msg)
    ensures Window.Fresh(n.ends[e].accepted, WireCounter(f))
  {
    OpenExact(n, e, aad, f, OpenStep(n.ends[e], aad, f).1.value);
    i :| 0 <= i < |n.log| && n.log[i].ct == f.ct && Matches(n, e, n.log[i], WireEpoch(f), WireCounter(f));
  }

  lemma RecordSpends(n: Net, e: End, i: nat, ctr: nat, s: State)
    requires e in n.ends && i < |n.log| && n.log[i].from == Peer(e) && n.log[i].index == n.ends[e].index
    requires ctr == n.log[i].ctr || ctr >= n.log[i].ctr + Window.WIDTH
    requires s == n.ends[e].(accepted := n.ends[e].accepted + {ctr})
    ensures Spent(n.(ends := n.ends[e := s]), i)
  {
    assert Peer(n.log[i].from) == e;
  }

  /** A counter is in the nonce's range and its own residue, or at least 2^56 above it. */
  lemma InRange(c: nat)
    ensures if c < TWO_56 then c % TWO_56 == c else c >= c % TWO_56 + TWO_56
    ensures (c + TWO_56) % TWO_56 == c % TWO_56
  {
  }

  /** A successful `open` spends a log entry; one with a counter in the nonce's range, an entry that was not spent before. */
  lemma OpenSpends(n: Net, e: End, aad: seq<byte>, f: Frame) returns (i: nat)
    requires Inv(n) && Enabled(n, DoOpen(e, aad, f)) && OpenStep(n.ends[e], aad, f).1.Ok?
    ensures i < |n.log| && n.log[i].ct == f.ct && n.log[i].from == Peer(e) && n.log[i].index == n.ends[e].index
    ensures f.ct.Enc? && f.ct.aad == aad && OpenStep(n.ends[e], aad, f).1 == Ok(f.ct.msg)
    ensures WireCounter(f) < TWO_56 ==> !Spent(n, i)
    ensures Spent(n.(ends := n.ends[e := OpenStep(n.ends[e], aad, f).0]), i)
  {
    i := OpenFinds(n, e, aad, f);
    InRange(WireCounter(f));
    assert Peer(n.log[i].from) == e;
    RecordSpends(n, e, i, WireCounter(f), OpenStep(n.ends[e], aad, f).0);
  }

  lemma CiphertextsDistinct(n: Net, i: nat, j: nat)
    requires Inv(n) && i < |n.log| && j < |n.log| && n.log[i].ct == n.log[j].ct
    ensures i == j
  {
    if i != j {
      assert Genuine(n, n.log[i]) && Genuine(n, n.log[j]);
      NonceUniqueOrdered(n, if i < j then i else j, if i < j then j else i);
    }
  }

  lemma {:induction false} SpentForever(n: Net, evs: seq<Event>, i: nat)
    requires EnabledRun(n, evs) && i < |n.log| && Spent(n, i)
    ensures i < |Run(n, evs).log| && Run(n, evs).log[i] == n.log[i] && Spent(Run(n, evs), i)
    decreases |evs|
  {
    if evs != [] {
      SpentStays(n, evs[0], i);
      SpentForever(Step(n, evs[0]), evs[1..], i);
    }
  }

  /** `second` would open, once more, the frame that `first` opened: same end, header and ratchet step, and a high, fresh counter that makes the same nonce. */
  ghost predicate ReopenedHigh(n: Net, first: Event, m: Net, second: Event)
    requires first.DoOpen? && second.DoOpen? && first.e in n.ends && second.e in m.ends
  {
    var f, g := first.frame, second.frame;
    && second.e == first.e && second.aad == first.aad
    && m.ends[second.e].index == n.ends[first.e].index
    && |f.prefix| >= 12 && |g.prefix| >= 12
    && WireEpoch(g) == WireEpoch(f) && WireCounter(g) % TWO_56 == WireCounter(f) % TWO_56
    && WireCounter(g) >= TWO_56
    && Window.Fresh(m.ends[second.e].accepted, WireCounter(g))
  }

  /** A spent entry opens exactly under a high counter. */
  lemma SpentOpens(m: Net, i: nat, e: End, aad: seq<byte>, g: Frame)
    requires Inv(m) && Enabled(m, DoOpen(e, aad, g)) && i < |m.log| && m.log[i].ct == g.ct && Spent(m, i)
    ensures OpenStep(m.ends[e], aad, g).1.Ok?
       <==> (&& |g.prefix| >= 12 && g.ct.Enc? && g.ct.aad == aad
             && Matches(m, e, m.log[i], WireEpoch(g), WireCounter(g))
             && WireCounter(g) >= TWO_56
             && Window.Fresh(m.ends[e].accepted, WireCounter(g)))
  {
    if OpenStep(m.ends[e], aad, g).1.Ok? {
      var j := OpenFinds(m, e, aad, g);
      CiphertextsDistinct(m, i, j);
      InRange(WireCounter(g));
      assert Peer(m.log[i].from) == e;
    } else if |g.prefix| >= 12 && g.ct.Enc? {
      OpenExact(m, e, aad, g, g.ct.msg);
    }
  }

  /**
    After a frame was opened and whatever happened since, at either end: exactly
    when it opens again.
   */
  lemma ReopensIff(n0: Net, before: seq<Event>, first: Event, between: seq<Event>, second: Event)
    requires InitNet(n0) && EnabledRun(n0, before)
    requires first.DoOpen? && Enabled(Run(n0, before), first)
    requires EnabledRun(Step(Run(n0, before), first), between)
    requires second.DoOpen? && Enabled(Run(Step(Run(n0, before), first), between), second)
    requires first.frame.ct == second.frame.ct && Answer(Run(n0, before), first).msg.Ok?
    ensures var n := Run(n0, before); var m := Run(Step(n, first), between);
      Answer(m, second).msg.Ok? <==> ReopenedHigh(n, first, m, second)
  {
    var n := Run(n0, before);
    InitInv(n0);
    RunKeepsInv(n0, before);
    var i := OpenSpends(n, first.e, first.aad, first.frame);
    var n' := Step(n, first);
    StepKeepsInv(n, first);
    RunKeepsInv(n', between);
    SpentForever(n', between, i);
    OpenMatches(n, first.e, first.aad, first.frame, i);
    SpentOpens(Run(n', between), i, second.e, second.aad, second.frame);
  }

  /** A successful `open` matches the log entry of its ciphertext. */
  lemma OpenMatches(n: Net, e: End, aad: seq<byte>, f: Frame, i: nat)
    requires Inv(n) && Enabled(n, DoOpen(e, aad, f)) && OpenStep(n.ends[e], aad, f).1.Ok?
    requires i < |n.log| && n.log[i].ct == f.ct
    ensures |f.prefix| >= 12 && f.ct.Enc? && f.ct.aad == aad && Matches(n, e, n.log[i], WireEpoch(f), WireCounter(f))
  {
    var j := OpenFinds(n, e, aad, f);
    CiphertextsDistinct(n, i, j);
  }

  /** Whatever happens in between, at either end, a frame that was opened does not open again under a counter in the nonce's range. */
  lemma OpenedAtMostOnce(n0: Net, before: seq<Event>, first: Event, between: seq<Event>, second: Event)
    requires InitNet(n0) && EnabledRun(n0, before)
    requires first.DoOpen? && Enabled(Run(n0, before), first)
    requires EnabledRun(Step(Run(n0, before), first), between)
    requires second.DoOpen? && Enabled(Run(Step(Run(n0, before), first), between), second)
    requires |second.frame.prefix| >= 12 ==> WireCounter(second.frame) < TWO_56
    requires first.frame.ct == second.frame.ct && Answer(Run(n0, before), first).msg.Ok?
    ensures Answer(Run(Step(Run(n0, before), first), between), second).msg.Err?
  {
    ReopensIff(n0, before, first, between, second);
  }

  /** What a successful `open` answers, and where it leaves the receiver. */
  lemma OpenOk(s: State, aad: seq<byte>, f: Frame)
    requires OpenStep(s, aad, f).1.Ok?
    ensures |f.prefix| >= 12 && f.ct.Enc? && f.ct.aad == aad && f.ct.key == KeyAt(s.shared, s.index)
    ensures f.ct.nonce == MakeNonce(1 - s.dir, WireEpoch(f), WireCounter(f))
    ensures OpenStep(s, aad, f) == (s.(accepted := s.accepted + {WireCounter(f)}), Ok(f.ct.msg))
  {
  }

  /** Each refusal has its own reason, and none changes the session. */
  lemma RefusalReasons(s: State, aad: seq<byte>, f: Frame, seen: set<nat>)
    ensures OpenStep(s, aad, f).1 == Err(ShortFrame) <==> |f.prefix| < 12
    ensures OpenStep(s, aad, f).1.Err? ==> OpenStep(s, aad, f).0 == s
    ensures OpenStep(s, aad, f).1 == Err(Replay) ==> OpenStep(s.(accepted := {}), aad, f).1.Ok?
    ensures OpenStep(s, aad, f).1 == Err(Auth) ==> OpenStep(s.(accepted := seen), aad, f).1 == Err(Auth)
  {
  }

  /** A frame just opened is a replay. */
  lemma SecondTimeIsReplay(s: State, aad: seq<byte>, f: Frame)
    requires OpenStep(s, aad, f).1.Ok?
    ensures OpenStep(OpenStep(s, aad, f).0, aad, f) == (OpenStep(s, aad, f).0, Err(Replay))
  {
    OpenOk(s, aad, f);
  }

  /** The range in `OpenedAtMostOnce` is needed: a prefix counter 2^56 higher opens the same frame again. */
  lemma HighCounterReopens(s: State, aad: seq<byte>, f: Frame, g: Frame)
    requires OpenStep(s, aad, f).1.Ok? && |g.prefix| >= 12 && g.ct == f.ct
    requires WireEpoch(g) == WireEpoch(f) && WireCounter(g) == WireCounter(f) + TWO_56
    ensures OpenStep(OpenStep(s, aad, f).0, aad, g).1 == OpenStep(s, aad, f).1
  {
    OpenOk(s, aad, f);
    FreshAbove(s.accepted, WireCounter(f), TWO_56);
    NonceShift(1 - s.dir, WireEpoch(f), WireCounter(f));
    OpensIf(OpenStep(s, aad, f).0, aad, g);
  }

  lemma NonceShift(d: byte, e: nat, c: nat)
    requires e < TWO_32
    ensures MakeNonce(d, e, c + TWO_56) == MakeNonce(d, e, c)
  {
    InRange(c);
    NonceInjective(d, e, c, d, e, c + TWO_56);
  }

  lemma OpensIf(s: State, aad: seq<byte>, f: Frame)
    requires |f.prefix| >= 12 && f.ct.Enc? && f.ct.aad == aad && f.ct.key == KeyAt(s.shared, s.index)
    requires f.ct.nonce == MakeNonce(1 - s.dir, WireEpoch(f), WireCounter(f)) && Window.Fresh(s.accepted, WireCounter(f))
    ensures OpenStep(s, aad, f).1 == Ok(f.ct.msg)
  {
  }

  lemma FreshAbove(accepted: set<nat>, c: nat, k: nat)
    requires Window.Fresh(accepted, c) && k > 0
    ensures Window.Fresh(accepted + {c}, c + k) <==> c + k !in accepted
  {
  }

  // ---------------------------------------------------------------- unauthenticated traffic

  /** The event is a delivery that fails before it authenticates. */
  ghost predicate Rejected(n: Net, ev: Event)
    requires Enabled(n, ev)
  {
    ev.DoOpen? && (Answer(n, ev) == Opening(Err(Auth)) || Answer(n, ev) == Opening(Err(ShortFrame)))
  }

  /** The run without its rejected deliveries. */
  ghost function Cleaned(n: Net, evs: seq<Event>): seq<Event>
    requires EnabledRun(n, evs)
    decreases |evs|
  {
    if evs == [] then []
    else (if Rejected(n, evs[0]) then [] else [evs[0]]) + Cleaned(Step(n, evs[0]), evs[1..])
  }

  /** The answers of a run, without those to rejected deliveries. */
  ghost function Answers(n: Net, evs: seq<Event>): seq<Output>
    requires EnabledRun(n, evs)
    decreases |evs|
  {
    if evs == [] then []
    else (if Rejected(n, evs[0]) then [] else [Answer(n, evs[0])]) + Answers(Step(n, evs[0]), evs[1..])
  }

  lemma RejectedIsNoOp(n: Net, ev: Event)
    requires Enabled(n, ev) && Rejected(n, ev)
    ensures Step(n, ev) == n
  {
    assert n.ends[ev.e := n.ends[ev.e]] == n.ends;
  }

  lemma CleanedStep(n: Net, evs: seq<Event>)
    requires EnabledRun(n, evs) && evs != [] && !Rejected(n, evs[0])
    ensures Cleaned(n, evs)[1..] == Cleaned(Step(n, evs[0]), evs[1..]) && Cleaned(n, evs)[0] == evs[0]
  {
  }

  /** Deleting every delivery that fails authentication changes no other answer and no state. */
  lemma {:induction false} RejectedHasNoEffect(n: Net, evs: seq<Event>)
    requires EnabledRun(n, evs)
    ensures var clean := Cleaned(n, evs);
      EnabledRun(n, clean) && Run(n, clean) == Run(n, evs) && Answers(n, clean) == Answers(n, evs)
    decreases |evs|
  {
    if evs != [] {
      var ev, rest := evs[0], evs[1..];
      RejectedHasNoEffect(Step(n, ev), rest);
      var clean := Cleaned(n, evs);
      if Rejected(n, ev) {
        RejectedIsNoOp(n, ev);
        assert clean == Cleaned(n, rest);
      } else {
        CleanedStep(n, evs);
      }
    }
  }
}
