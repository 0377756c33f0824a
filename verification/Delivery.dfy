/**
  What a mesh does deliver: a packet sent along nodes whose tables point down
  the path, over links in lock-step, with every frame delivered once.
 */
module Delivery {
  import opened Widths
  import opened Bytes
  import opened Session
  import opened Wire
  import opened SecureNet
  import opened Forward
  import M = Mesh
  import Window = Replay

  /** The peer is at the ratchet step at which the next frame is sealed, and that frame's counter is fresh there. */
  ghost predicate InStep(ends: map<End, State>, e: End) {
    && e in ends && Peer(e) in ends
    && ends[Peer(e)].index == Rekeyed(ends[e]).index
    && Window.Fresh(ends[Peer(e)].accepted, Rekeyed(ends[e]).tx)
  }

  /** The two ends of a link are different ends. */
  lemma EndsDiffer(n: Net, e: End)
    requires Inv(n) && e in n.ends
    ensures Peer(e) in n.ends && Peer(e) != e
  {
  }

  /** What is sealed opens at the other end if and only if the link is in step. */
  lemma SealedOpensIff(n: Net, e: End, aad: seq<byte>, msg: seq<byte>)
    requires Inv(n) && e in n.ends
    ensures SealStep(n.ends[e], aad, msg).1.Ok? && Peer(e) in n.ends
    ensures var f := SealStep(n.ends[e], aad, msg).1.value;
      && |f.prefix| >= 12 && WireCounter(f) < TWO_56
      && (OpenStep(n.ends[Peer(e)], aad, f).1 == Ok(msg) <==> InStep(n.ends, e))
  {
    var s, p, r := n.ends[e], n.ends[Peer(e)], Rekeyed(n.ends[e]);
    SealIsNext(n, e, aad, msg);
    var f := SealStep(s, aad, msg).1.value;
    PrefixRoundTrip(r.index % TWO_32, r.tx, f.ct);
    assert WireEpoch(f) == r.index % TWO_32 && WireCounter(f) == r.tx;
    KeyInjective(r.shared, r.index, p.shared, p.index);
    if InStep(n.ends, e) {
      OpensIf(p, aad, f);
    } else if OpenStep(p, aad, f).1.Ok? {
      OpenOk(p, aad, f);
    }
  }

  /** In a new mesh every link is in step. */
  lemma NewLinksInStep(n: Net, e: End)
    requires InitNet(n) && e in n.ends
    ensures InStep(n.ends, e)
  {
    assert Peer(e) in n.ends;
  }

  // ---------------------------------------------------------------- sending

  /** The frame `o` carries `payload` from `me` toward `dst` over the link to `next`, and is the only thing logged. */
  ghost predicate SentOn(n: Net, fx: Effect, me: u32, next: u32, dst: u32, src: u32, ttl: byte, payload: seq<byte>) {
    && fx.answer == Forwarded(next) && fx.out.Some?
    && var o := fx.out.value;
    && End(me, next) in n.ends && o.sent.from == End(me, next) && o.frame.ct == o.sent.ct
    && o.hdr == [1, 1] + BE(src, 4) + BE(dst, 4) + [ttl]
    && Net(fx.ends, n.log + [o.sent]) == Step(n, DoSeal(End(me, next), o.hdr, payload))
    && |o.frame.prefix| >= 12 && WireCounter(o.frame) < TWO_56
    && End(next, me) in fx.ends
    && (OpenStep(fx.ends[End(next, me)], o.hdr, o.frame).1 == Ok(payload) <==> InStep(n.ends, End(me, next)))
  }

  lemma RouteSends(n: Net, me: u32, next: u32, src: u32, dst: u32, ttl: byte, payload: seq<byte>)
    requires Inv(n) && End(me, next) in n.ends
    ensures SentOn(n, Route(n.ends, me, Some(next), Header(Data, src, dst, ttl), payload), me, next, dst, src, ttl, payload)
  {
    var e, h := End(me, next), Header(Data, src, dst, ttl);
    M.SealToIsStep(n, me, next, h, payload);
    SealedOpensIff(n, e, Encode(h), payload);
    EndsDiffer(n, e);
  }

  /** `send_ip` toward a linked next hop forwards one frame with a hop budget of 8, which opens there if and only if the link is in step. */
  lemma SendIpSends(n: Net, me: u32, dst: u32, payload: seq<byte>, next: u32)
    requires Inv(n) && End(me, next) in n.ends
    ensures SentOn(n, SendIp(n.ends, me, dst, payload, Some(next)), me, next, dst, me, 8, payload)
  {
    RouteSends(n, me, next, me, dst, 8, payload);
  }

  /** `send_direct` does so over the link to the destination itself. */
  lemma SendDirectSends(n: Net, me: u32, peer: u32, payload: seq<byte>)
    requires Inv(n) && End(me, peer) in n.ends
    ensures SentOn(n, SendDirect(n.ends, me, peer, payload), me, peer, peer, me, 8, payload)
  {
    RouteSends(n, me, peer, me, peer, 8, payload);
  }

  /** Without a next hop, or without a link to it, nothing happens. */
  lemma NothingSent(ends: map<End, State>, me: u32, dst: u32, payload: seq<byte>, next: Option<u32>)
    requires next.Some? ==> End(me, next.value) !in ends
    ensures SendIp(ends, me, dst, payload, next) == Effect(ends, Dropped(NoRoute), None)
    ensures next.Some? ==> SendDirect(ends, me, next.value, payload) == Effect(ends, Dropped(NoRoute), None)
  {
  }

  // ---------------------------------------------------------------- a path

  type Tables = u32 -> Option<u32>

  ghost predicate DistinctNodes(path: seq<u32>) {
    forall i, j | 0 <= i < j < |path| :: path[i] != path[j]
  }

  /** Each node's table points to the next node of the path. */
  ghost predicate PointsDown(next: Tables, path: seq<u32>) {
    forall i | 0 <= i < |path| - 1 :: next(path[i]) == Some(path[i + 1])
  }

  /** The links of the path from node `i` on are in step. */
  ghost predicate Ready(ends: map<End, State>, path: seq<u32>, i: nat) {
    forall j | i <= j < |path| - 1 :: InStep(ends, End(path[j], path[j + 1]))
  }

  /** A frame arrives where it was sent. */
  ghost function Arrival(o: Out, next: Tables): M.Event {
    M.Receive(o.sent.from.peer, o.sent.from.me, o.hdr, o.frame, next(o.sent.from.peer))
  }

  ghost predicate InBooks(m: M.Mesh) {
    |m.origin| == |m.fate| == |m.net.log|
  }

  /** The mesh after an event, the frame sent and the answer given. */
  datatype Outcome = Outcome(mesh: M.Mesh, out: Option<Out>, answer: Delivery)

  type Machine = (M.Mesh, M.Event) -> Option<Outcome>

  /** What the mesh does at an event, if it can happen. */
  ghost function React(m: M.Mesh, ev: M.Event): Option<Outcome> {
    if M.Enabled(m, ev) && InBooks(m) then Some(Outcome(M.Step(m, ev), M.Effects(m, ev).out, M.Effects(m, ev).answer)) else None
  }

  /**
    The events deliver `o`, then the frame sent in reaction to it, and so on
    until nothing more is sent, and lead to `final`.
   */
  ghost predicate Travels(react: Machine, m: M.Mesh, o: Out, next: Tables, evs: seq<M.Event>, final: M.Mesh)
    decreases |evs|
  {
    && evs != [] && evs[0] == Arrival(o, next)
    && match react(m, evs[0])
       case None => false
       case Some(Outcome(m', None, _)) => |evs| == 1 && final == m'
       case Some(Outcome(m', Some(o'), _)) => Travels(react, m', o', next, evs[1..], final)
  }

  /** There is just one such sequence of events. */
  lemma {:induction false} TravelsUnique(react: Machine, m: M.Mesh, o: Out, next: Tables, a: seq<M.Event>, b: seq<M.Event>,
                                         final: M.Mesh, final': M.Mesh)
    requires Travels(react, m, o, next, a, final) && Travels(react, m, o, next, b, final')
    ensures a == b && final == final'
    decreases |a|
  {
    var r := react(m, a[0]).value;
    if r.out.Some? {
      TravelsUnique(react, r.mesh, r.out.value, next, a[1..], b[1..], final, final');
      assert a == [a[0]] + a[1..] && b == [b[0]] + b[1..];
    }
  }

  /** It is a run of the mesh. */
  lemma {:induction false} TravelsRuns(m: M.Mesh, o: Out, next: Tables, evs: seq<M.Event>, final: M.Mesh)
    requires Travels(React, m, o, next, evs, final)
    ensures M.EnabledRun(m, evs) && M.Run(m, evs) == final
    decreases |evs|
  {
    var r := React(m, evs[0]).value;
    if r.out.Some? {
      TravelsRuns(r.mesh, r.out.value, next, evs[1..], final);
    } else {
      assert evs[1..] == [];
    }
  }

  /** The frame last sealed is on its way from node `i` of the path to the next, and will open there. */
  ghost predicate InFlight(m: M.Mesh, path: seq<u32>, i: nat, o: Out, payload: seq<byte>, ttl: byte) {
    && Inv(m.net) && InBooks(m) && i + 1 < |path| && m.net.log != []
    && o.sent == m.net.log[|m.net.log| - 1] && o.frame.ct == o.sent.ct
    && o.sent.from == End(path[i], path[i + 1])
    && o.hdr == Encode(Header(Data, path[0], path[|path| - 1], ttl))
    && |o.frame.prefix| >= 12 && WireCounter(o.frame) < TWO_56
    && End(path[i + 1], path[i]) in m.net.ends
    && OpenStep(m.net.ends[End(path[i + 1], path[i])], o.hdr, o.frame).1 == Ok(payload)
    && Ready(m.net.ends, path, i + 1)
  }

  /** Changing a session of node `i` leaves the links beyond its own in step. */
  lemma ReadyStays(ends: map<End, State>, path: seq<u32>, i: nat, k: nat, e: End, s: State)
    requires DistinctNodes(path) && i < |path| && e.me == path[i] && Ready(ends, path, k)
    requires i < k || (i == k && i + 1 < |path| && e.peer != path[i + 1])
    ensures Ready(ends[e := s], path, k)
  {
    forall j | k <= j < |path| - 1
      ensures InStep(ends[e := s], End(path[j], path[j + 1]))
    {
      assert InStep(ends, End(path[j], path[j + 1]));
    }
  }

  lemma OpenedStep(m: M.Mesh, ev: M.Event)
    requires Inv(m.net) && ev.Receive? && End(ev.me, ev.from) in m.net.ends && Deliverable(m.net, ev.body)
    ensures M.OpenedNet(m, ev) == Step(m.net, DoOpen(End(ev.me, ev.from), ev.hdr, ev.body)) && Inv(M.OpenedNet(m, ev))
  {
    StepKeepsInv(m.net, DoOpen(End(ev.me, ev.from), ev.hdr, ev.body));
  }

  /** The frame can be delivered, and opens. */
  lemma ArrivalOpens(m: M.Mesh, path: seq<u32>, i: nat, o: Out, payload: seq<byte>, ttl: byte, next: Tables)
    requires InFlight(m, path, i, o, payload, ttl)
    ensures var ev := Arrival(o, next);
      M.Enabled(m, ev) && M.Opens(m, ev) && M.EntryOf(m.net.log, o.frame.ct) == |m.net.log| - 1
  {
    var last := |m.net.log| - 1;
    assert m.net.log[last].ct == o.frame.ct;
    assert |o.hdr| == HEADER_LEN;
    CiphertextsDistinct(m.net, M.EntryOf(m.net.log, o.frame.ct), last);
  }

  /** What the node at which it arrives does. */
  lemma ArrivalEffect(m: M.Mesh, path: seq<u32>, i: nat, o: Out, payload: seq<byte>, ttl: byte, next: Tables, fx: Effect)
    requires InFlight(m, path, i, o, payload, ttl) && M.Opens(m, Arrival(o, next))
    requires fx == Dispatch(M.OpenedNet(m, Arrival(o, next)).ends, path[i + 1], path[i], o.hdr, payload, next(path[i + 1]))
    ensures M.Effects(m, Arrival(o, next)) == fx
  {
  }

  /** The mesh afterwards: the sessions, the log and the receipts. */
  ghost predicate Reacted(m: M.Mesh, fx: Effect, me: u32, m': M.Mesh) {
    && InBooks(m') && m.net.log != []
    && m'.net == Net(fx.ends, if fx.out.Some? then m.net.log + [fx.out.value.sent] else m.net.log)
    && m'.receipts == m.receipts + if fx.answer.Local? then [M.Receipt(|m.net.log| - 1, me, fx.answer.payload)] else []
  }

  lemma BookReacts(m: M.Mesh, n1: Net, i: nat, fx: Effect, me: u32, pid: nat)
    requires InBooks(m) && i < |m.fate| && n1.log == m.net.log && i == |m.net.log| - 1
    ensures Reacted(m, fx, me, M.Book(M.Settled(m.(net := n1), i, fx.answer, me), fx, pid))
  {
  }

  /** The reaction of a node to an opened data frame. */
  ghost function Reaction(ends: map<End, State>, me: u32, src: u32, dst: u32, ttl: byte, payload: seq<byte>, hop: Option<u32>): Effect {
    if dst == me then Effect(ends, Local(payload), None)
    else if ttl == 0 then Effect(ends, Dropped(TtlExpired), None)
    else Route(ends, me, hop, Header(Data, src, dst, ttl - 1), payload)
  }

  /** One arrival. */
  lemma ArrivalReacts(m: M.Mesh, path: seq<u32>, i: nat, o: Out, payload: seq<byte>, ttl: byte, next: Tables)
    returns (n1: Net, fx: Effect, m': M.Mesh)
    requires InFlight(m, path, i, o, payload, ttl)
    ensures React(m, Arrival(o, next)) == Some(Outcome(m', fx.out, fx.answer)) && Reacted(m, fx, path[i + 1], m')
    ensures Inv(n1) && n1.log == m.net.log && OnlyChanged(m.net.ends, n1.ends, End(path[i + 1], path[i]))
    ensures fx == Reaction(n1.ends, path[i + 1], path[0], path[|path| - 1], ttl, payload, next(path[i + 1]))
  {
    var ev := Arrival(o, next);
    ArrivalOpens(m, path, i, o, payload, ttl, next);
    OpenedStep(m, ev);
    n1 := M.OpenedNet(m, ev);
    fx := Dispatch(n1.ends, path[i + 1], path[i], o.hdr, payload, next(path[i + 1]));
    M.DispatchData(n1.ends, path[i + 1], path[i], M.Packet(path[0], path[|path| - 1], payload), ttl, next(path[i + 1]));
    ArrivalEffect(m, path, i, o, payload, ttl, next, fx);
    M.ReceiveStep(m, ev, payload);
    BookReacts(m, n1, |m.net.log| - 1, fx, path[i + 1], m.origin[|m.net.log| - 1]);
    m' := M.Step(m, ev);
  }

  ghost predicate OnlyChanged(ends: map<End, State>, ends': map<End, State>, e: End) {
    e in ends' && ends' == ends[e := ends'[e]]
  }

  /** A frame routed by node `i` over a link in step is in flight. */
  lemma Flying(n: Net, path: seq<u32>, i: nat, payload: seq<byte>, ttl: byte, fx: Effect, m': M.Mesh)
    requires Inv(n) && InBooks(m') && DistinctNodes(path) && i + 1 < |path| && Ready(n.ends, path, i)
    requires SentOn(n, fx, path[i], path[i + 1], path[|path| - 1], path[0], ttl, payload)
    requires m'.net == Net(fx.ends, n.log + [fx.out.value.sent])
    ensures InFlight(m', path, i, fx.out.value, payload, ttl) && FlightOf(path, payload)(m', i, fx.out.value, ttl)
  {
    var e, o := End(path[i], path[i + 1]), fx.out.value;
    assert InStep(n.ends, End(path[i], path[i + 1]));
    StepKeepsInv(n, DoSeal(e, o.hdr, payload));
    assert fx.ends == n.ends[e := fx.ends[e]];
    ReadyStays(n.ends, path, i, i + 1, e, fx.ends[e]);
    InFlightFlies(path, payload, m', i, o, ttl);
  }

  lemma TakeOff(n: Net, path: seq<u32>, i: nat, payload: seq<byte>, ttl: byte, fx: Effect, m': M.Mesh)
    requires Inv(n) && InBooks(m') && DistinctNodes(path) && i + 1 < |path| && Ready(n.ends, path, i)
    requires fx == Route(n.ends, path[i], Some(path[i + 1]), Header(Data, path[0], path[|path| - 1], ttl), payload)
    requires fx.out.Some? ==> m'.net == Net(fx.ends, n.log + [fx.out.value.sent])
    ensures fx.out.Some? && fx.answer.Forwarded? && FlightOf(path, payload)(m', i, fx.out.value, ttl)
    ensures m'.net.log == n.log + [fx.out.value.sent]
  {
    assert InStep(n.ends, End(path[i], path[i + 1]));
    RouteSends(n, path[i], path[i + 1], path[0], path[|path| - 1], ttl, payload);
    Flying(n, path, i, payload, ttl, fx, m');
  }

  /** The next node of the path forwards, with one hop less. */
  lemma Onward(m: M.Mesh, n1: Net, path: seq<u32>, i: nat, payload: seq<byte>, ttl: byte, hop: Option<u32>, fx: Effect, m': M.Mesh)
    requires i + 2 < |path| && ttl > 0 && Reacted(m, fx, path[i + 1], m') && Inv(n1) && n1.log == m.net.log
    requires DistinctNodes(path) && Ready(m.net.ends, path, i + 1) && OnlyChanged(m.net.ends, n1.ends, End(path[i + 1], path[i]))
    requires hop == Some(path[i + 2])
    requires fx == Reaction(n1.ends, path[i + 1], path[0], path[|path| - 1], ttl, payload, hop)
    ensures fx.out.Some? && FlightOf(path, payload)(m', i + 1, fx.out.value, ttl - 1)
    ensures m'.receipts == m.receipts && |m'.net.log| == |m.net.log| + 1
  {
    ReadyStays(m.net.ends, path, i + 1, i + 1, End(path[i + 1], path[i]), n1.ends[End(path[i + 1], path[i])]);
    TakeOff(n1, path, i + 1, payload, ttl - 1, fx, m');
  }

  // ---------------------------------------------------------------- the journey

  /** The receipts, with one more for the payload handed up if it was. */
  function Handed(receipts: seq<M.Receipt>, delivered: bool, entry: nat, dst: u32, payload: seq<byte>): seq<M.Receipt> {
    if delivered then receipts + [M.Receipt(entry, dst, payload)] else receipts
  }

  /** The frame `o` is in flight from node `i` with this budget. */
  type Flight = (M.Mesh, nat, Out, nat) -> bool

  /** A frame in flight short of its destination, with budget left, is forwarded. */
  ghost predicate Forwards(react: Machine, fly: Flight, path: seq<u32>, next: Tables, m: M.Mesh, i: nat, o: Out, t: nat) {
    fly(m, i, o, t) && i + 2 < |path| && t > 0 ==>
      && react(m, Arrival(o, next)).Some?
      && var r := react(m, Arrival(o, next)).value;
      r.out.Some? && fly(r.mesh, i + 1, r.out.value, t - 1) && r.mesh.receipts == m.receipts && |r.mesh.net.log| == |m.net.log| + 1
  }

  /** One at its destination, or without budget, is not; at the destination it is handed up. */
  ghost predicate Ends(react: Machine, fly: Flight, path: seq<u32>, payload: seq<byte>, next: Tables, m: M.Mesh, i: nat, o: Out, t: nat)
    requires path != []
  {
    fly(m, i, o, t) && i + 2 <= |path| && (i + 2 == |path| || t == 0) ==>
      && react(m, Arrival(o, next)).Some? && m.net.log != []
      && var r := react(m, Arrival(o, next)).value;
      && r.out.None?
      && r.answer == (if i + 2 == |path| then Local(payload) else Dropped(TtlExpired))
      && r.mesh.receipts == Handed(m.receipts, i + 2 == |path|, |m.net.log| - 1, path[|path| - 1], payload)
  }

  ghost predicate Carried(react: Machine, fly: Flight, path: seq<u32>, payload: seq<byte>, next: Tables)
    requires path != []
  {
    forall m, i: nat, o, t: nat ::
      Forwards(react, fly, path, next, m, i, o, t) && Ends(react, fly, path, payload, next, m, i, o, t)
  }

  /** Delivering a frame, and what follows from it, once each. */
  lemma {:induction false} JourneyFrom(react: Machine, fly: Flight, m: M.Mesh, path: seq<u32>, i: nat, o: Out, payload: seq<byte>,
                                       t: nat, next: Tables)
    returns (evs: seq<M.Event>, final: M.Mesh)
    requires i + 2 <= |path| && fly(m, i, o, t) && Carried(react, fly, path, payload, next) && m.net.log != []
    ensures Travels(react, m, o, next, evs, final)
    ensures var left := |path| - 2 - i;
      final.receipts == Handed(m.receipts, left <= t, |m.net.log| - 1 + left, path[|path| - 1], payload)
    decreases |path| - i
  {
    var ev := Arrival(o, next);
    assert Forwards(react, fly, path, next, m, i, o, t) && Ends(react, fly, path, payload, next, m, i, o, t);
    var r := react(m, ev).value;
    if i + 2 == |path| || t == 0 {
      evs, final := [ev], r.mesh;
    } else {
      var rest;
      rest, final := JourneyFrom(react, fly, r.mesh, path, i + 1, r.out.value, payload, t - 1, next);
      evs := [ev] + rest;
      assert evs[1..] == rest;
    }
  }

  ghost function FlightOf(path: seq<u32>, payload: seq<byte>): Flight {
    (m: M.Mesh, i: nat, o: Out, t: nat) => t < 256 && InFlight(m, path, i, o, payload, t)
  }

  lemma InFlightFlies(path: seq<u32>, payload: seq<byte>, m: M.Mesh, i: nat, o: Out, t: byte)
    requires InFlight(m, path, i, o, payload, t)
    ensures FlightOf(path, payload)(m, i, o, t)
  {
  }

  /** Where the frame goes next. */
  lemma NextFlight(path: seq<u32>, payload: seq<byte>, next: Tables, m: M.Mesh, i: nat, o: Out, t: nat) returns (r: Outcome)
    requires DistinctNodes(path) && PointsDown(next, path) && i + 2 < |path| && 0 < t < 256 && InFlight(m, path, i, o, payload, t)
    ensures React(m, Arrival(o, next)) == Some(r) && r.out.Some? && FlightOf(path, payload)(r.mesh, i + 1, r.out.value, t - 1)
    ensures r.mesh.receipts == m.receipts && |r.mesh.net.log| == |m.net.log| + 1
  {
    var n1, fx, m' := ArrivalReacts(m, path, i, o, payload, t, next);
    assert next(path[i + 1]) == Some(path[i + 1 + 1]);
    Onward(m, n1, path, i, payload, t, next(path[i + 1]), fx, m');
    r := Outcome(m', fx.out, fx.answer);
  }

  lemma NextFlies(fly: Flight, path: seq<u32>, payload: seq<byte>, next: Tables, m: M.Mesh, i: nat, o: Out, t: nat) returns (r: Outcome)
    requires fly == FlightOf(path, payload) && DistinctNodes(path) && PointsDown(next, path)
    requires fly(m, i, o, t) && i + 2 < |path| && t > 0
    ensures React(m, Arrival(o, next)) == Some(r) && r.out.Some? && fly(r.mesh, i + 1, r.out.value, t - 1)
    ensures r.mesh.receipts == m.receipts && |r.mesh.net.log| == |m.net.log| + 1
  {
    r := NextFlight(path, payload, next, m, i, o, t);
  }

  lemma ForwardsOne(react: Machine, fly: Flight, path: seq<u32>, payload: seq<byte>, next: Tables, m: M.Mesh, i: nat, o: Out, t: nat)
    requires react == React && fly == FlightOf(path, payload)
    requires path != [] && DistinctNodes(path) && PointsDown(next, path)
    ensures Forwards(react, fly, path, next, m, i, o, t)
  {
    if fly(m, i, o, t) && i + 2 < |path| && t > 0 {
      var r := NextFlies(fly, path, payload, next, m, i, o, t);
      Hop(react, fly, path, next, m, i, o, t, r);
    }
  }

  lemma Hop(react: Machine, fly: Flight, path: seq<u32>, next: Tables, m: M.Mesh, i: nat, o: Out, t: nat, r: Outcome)
    requires react(m, Arrival(o, next)) == Some(r) && r.out.Some? && t > 0 && fly(r.mesh, i + 1, r.out.value, t - 1)
    requires r.mesh.receipts == m.receipts && |r.mesh.net.log| == |m.net.log| + 1
    ensures Forwards(react, fly, path, next, m, i, o, t)
  {
  }

  lemma EndsOne(path: seq<u32>, payload: seq<byte>, next: Tables, m: M.Mesh, i: nat, o: Out, t: nat)
    requires path != [] && DistinctNodes(path)
    ensures Ends(React, FlightOf(path, payload), path, payload, next, m, i, o, t)
  {
    if FlightOf(path, payload)(m, i, o, t) && i + 2 <= |path| && (i + 2 == |path| || t == 0) {
      var n1, fx, m' := ArrivalReacts(m, path, i, o, payload, t, next);
      assert i + 2 == |path| <==> path[i + 1] == path[|path| - 1];
    }
  }

  lemma CarriedAlong(path: seq<u32>, payload: seq<byte>, next: Tables)
    requires path != [] && DistinctNodes(path) && PointsDown(next, path)
    ensures Carried(React, FlightOf(path, payload), path, payload, next)
  {
    var fly := FlightOf(path, payload);
    forall m, i: nat, o, t: nat
      ensures Forwards(React, fly, path, next, m, i, o, t) && Ends(React, fly, path, payload, next, m, i, o, t)
    {
      ForwardsOne(React, fly, path, payload, next, m, i, o, t);
      EndsOne(path, payload, next, m, i, o, t);
    }
  }

  ghost function SendDown(path: seq<u32>, payload: seq<byte>, next: Tables): M.Event
    requires |path| >= 2
  {
    M.Send(path[0], path[|path| - 1], payload, next(path[0]))
  }

  lemma SendTakesOff(m: M.Mesh, path: seq<u32>, payload: seq<byte>, next: Tables)
    returns (m': M.Mesh, o: Out)
    requires Inv(m.net) && InBooks(m)
    requires |path| >= 2 && DistinctNodes(path) && PointsDown(next, path) && Ready(m.net.ends, path, 0)
    ensures React(m, SendDown(path, payload, next)) == Some(Outcome(m', Some(o), Forwarded(path[1])))
    ensures InFlight(m', path, 0, o, payload, 8) && m'.receipts == m.receipts && |m'.net.log| == |m.net.log| + 1
  {
    var ev := SendDown(path, payload, next);
    assert next(path[0]) == Some(path[0 + 1]);
    assert InStep(m.net.ends, End(path[0], path[0 + 1]));
    var fx := M.Effects(m, ev);
    SendIpSends(m.net, path[0], path[|path| - 1], payload, path[1]);
    m', o := M.Step(m, ev), fx.out.value;
    Flying(m.net, path, 0, payload, 8, fx, m');
  }

  lemma Journey(react: Machine, fly: Flight, m: M.Mesh, m1: M.Mesh, o: Out, path: seq<u32>, payload: seq<byte>, next: Tables)
    returns (evs: seq<M.Event>, final: M.Mesh)
    requires |path| >= 2 && fly(m1, 0, o, 8) && Carried(react, fly, path, payload, next)
    requires m1.receipts == m.receipts && |m1.net.log| == |m.net.log| + 1
    ensures Travels(react, m1, o, next, evs, final)
    ensures final.receipts == Handed(m.receipts, |path| - 1 <= 9, |m.net.log| + |path| - 2, path[|path| - 1], payload)
  {
    evs, final := JourneyFrom(react, fly, m1, path, 0, o, payload, 8, next);
  }

  lemma SendAndDeliver(m: M.Mesh, path: seq<u32>, payload: seq<byte>, next: Tables)
    returns (m1: M.Mesh, o: Out, evs: seq<M.Event>, final: M.Mesh)
    requires Inv(m.net) && InBooks(m)
    requires |path| >= 2 && DistinctNodes(path) && PointsDown(next, path) && Ready(m.net.ends, path, 0)
    ensures React(m, SendDown(path, payload, next)) == Some(Outcome(m1, Some(o), Forwarded(path[1])))
    ensures Travels(React, m1, o, next, evs, final)
    ensures final.receipts == Handed(m.receipts, |path| - 1 <= 9, |m.net.log| + |path| - 2, path[|path| - 1], payload)
  {
    var fly := FlightOf(path, payload);
    CarriedAlong(path, payload, next);
    m1, o := SendTakesOff(m, path, payload, next);
    assert fly(m1, 0, o, 8);
    evs, final := Journey(React, fly, m, m1, o, path, payload, next);
  }

  /**
    In every reachable state, for every path of distinct nodes whose tables
    point down it and whose links are in step: sending to the last node and
    delivering every frame once hands the payload up there, once, if and only
    if the path has at most 9 hops.
   */
  lemma DeliveredIffNineHops(m0: M.Mesh, before: seq<M.Event>, m: M.Mesh, path: seq<u32>, payload: seq<byte>, next: Tables)
    returns (m1: M.Mesh, o: Out, evs: seq<M.Event>, final: M.Mesh)
    requires M.InitMesh(m0) && M.EnabledRun(m0, before) && m == M.Run(m0, before)
    requires |path| >= 2 && DistinctNodes(path) && PointsDown(next, path) && Ready(m.net.ends, path, 0)
    ensures React(m, SendDown(path, payload, next)) == Some(Outcome(m1, Some(o), Forwarded(path[1])))
    ensures Travels(React, m1, o, next, evs, final)
    ensures final.receipts == Handed(m.receipts, |path| - 1 <= 9, |m.net.log| + |path| - 2, path[|path| - 1], payload)
  {
    InitInv(m0.net);
    M.RunKeeps(m0, before);
    m1, o, evs, final := SendAndDeliver(m, path, payload, next);
  }
}
