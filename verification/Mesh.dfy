/**
  A mesh of any number of nodes over a transport that may lose, duplicate,
  reorder, corrupt and inject frames, and with routing tables that may say
  anything at any time.

  Every sealed frame is remembered together with the packet it carries and
  with what became of it, so that the safety properties can be stated per
  packet: a bounded number of copies, one delivery at most, nothing altered.
 */
module Mesh {
  import opened Widths
  import opened Bytes
  import opened Session
  import opened Wire
  import opened SecureNet
  import opened Forward

  /** A packet originated by `send_ip` or `send_direct`. */
  datatype Packet = Packet(src: u32, dst: u32, payload: seq<byte>)

  /** What became of a sealed frame at its receiver. */
  datatype Fate = Pending | Relayed | Delivered | Discarded

  /** A `Local` answer: the log entry that led to it, the node that gave it, and the payload handed up. */
  datatype Receipt = Receipt(entry: nat, node: u32, payload: seq<byte>)

  /** `origin[i]` and `fate[i]` belong to the i-th sealed frame of `net.log`. */
  datatype Mesh = Mesh(net: Net, packets: seq<Packet>, origin: seq<nat>, fate: seq<Fate>, receipts: seq<Receipt>)

  datatype Event =
    | Send(me: u32, dst: u32, payload: seq<byte>, next: Option<u32>)
    | Direct(me: u32, peer: u32, payload: seq<byte>)
    | Receive(me: u32, from: u32, hdr: seq<byte>, body: Frame, next: Option<u32>)
    | Rekey(me: u32, peer: u32)

  /** Deliveries carry no forged ciphertext, and a counter within the nonce's 56 bits. */
  ghost predicate Enabled(m: Mesh, ev: Event) {
    match ev
    case Receive(_, _, _, body, _) =>
      Deliverable(m.net, body) && (|body.prefix| >= 12 ==> WireCounter(body) < TWO_56)
    case Rekey(me, peer) => End(me, peer) in m.net.ends
    case _ => true
  }

  /** The sealed frame with this ciphertext. */
  ghost function EntryOf(log: seq<Sent>, ct: Sealed): (i: nat)
    requires exists i :: 0 <= i < |log| && log[i].ct == ct
    ensures i < |log| && log[i].ct == ct
  {
    var i :| 0 <= i < |log| && log[i].ct == ct; i
  }

  /** Append to the books the frame that `fx` sealed on behalf of packet `pid`, if any. */
  ghost function Book(m: Mesh, fx: Effect, pid: nat): Mesh {
    if fx.out.None? then m.(net := m.net.(ends := fx.ends))
    else m.(net := Net(fx.ends, m.net.log + [fx.out.value.sent]), origin := m.origin + [pid], fate := m.fate + [Pending])
  }

  ghost function Originate(m: Mesh, p: Packet, fx: Effect): Mesh {
    Book(m.(packets := m.packets + [p]), fx, |m.packets|)
  }

  /** What the receiver's answer says about the frame it opened. */
  function FateOf(answer: Delivery): Fate {
    match answer
    case Local(_) => Delivered
    case Forwarded(_) => Relayed
    case Dropped(_) => Discarded
  }

  /** The books after the frame `i` was answered by node `me`. */
  ghost function Settled(m: Mesh, i: nat, answer: Delivery, me: u32): Mesh
    requires i < |m.fate|
  {
    m.(fate := m.fate[i := FateOf(answer)],
       receipts := if answer.Local? then m.receipts + [Receipt(i, me, answer.payload)] else m.receipts)
  }

  ghost predicate Opens(m: Mesh, ev: Event)
    requires ev.Receive?
  {
    var e := End(ev.me, ev.from);
    |ev.hdr| >= HEADER_LEN && e in m.net.ends && OpenStep(m.net.ends[e], ev.hdr, ev.body).1.Ok?
  }

  /** The router's answer to an event. */
  ghost function Effects(m: Mesh, ev: Event): Effect {
    var ends := m.net.ends;
    match ev
    case Send(me, dst, payload, next) => SendIp(ends, me, dst, payload, if dst == me then None else next)
    case Direct(me, peer, payload) => SendDirect(ends, me, peer, payload)
    case Receive(me, from, hdr, body, next) => HandleFrame(ends, me, from, hdr, body, next)
    case Rekey(me, peer) =>
      var e := End(me, peer);
      Effect(if e in ends then ends[e := Ratcheted(ends[e])] else ends, Dropped(NoRoute), None)
  }

  ghost function Step(m: Mesh, ev: Event): Mesh
    requires Enabled(m, ev) && |m.origin| == |m.fate| == |m.net.log|
  {
    var fx := Effects(m, ev);
    match ev
    case Send(me, dst, payload, _) => Originate(m, Packet(me, dst, payload), fx)
    case Direct(me, peer, payload) => Originate(m, Packet(me, peer, payload), fx)
    case Receive(me, _, _, body, _) =>
      if Opens(m, ev) then
        var i := EntryOf(m.net.log, body.ct);
        Book(Settled(m, i, fx.answer, me), fx, m.origin[i])
      else m.(net := m.net.(ends := fx.ends))
    case Rekey(_, _) => m.(net := m.net.(ends := fx.ends))
  }

  // ---------------------------------------------------------------- the invariant

  function Ttl(s: Sent): byte {
    if s.ct.Enc? && |s.ct.aad| == HEADER_LEN then s.ct.aad[10] else 0
  }

  /** A sealed frame carries its packet unchanged, with at most the initial hop budget. */
  ghost predicate Carries(p: Packet, s: Sent) {
    && s.ct.Enc?
    && s.ct.aad == Encode(Header(Data, p.src, p.dst, Ttl(s)))
    && s.ct.msg == p.payload
    && Ttl(s) <= DEFAULT_TTL
  }

  /** The frames of one packet form a line: each but the last was relayed, and the hop budget falls. */
  ghost predicate Line(m: Mesh)
    requires |m.origin| == |m.fate| == |m.net.log|
  {
    forall i, j | 0 <= i < j < |m.origin| && m.origin[i] == m.origin[j] ::
      m.fate[i] == Relayed && Ttl(m.net.log[i]) > Ttl(m.net.log[j])
  }

  /** A receipt is of a frame that was delivered at its packet's destination, with the packet's payload. */
  ghost predicate Proper(m: Mesh, r: Receipt)
    requires |m.origin| == |m.fate| == |m.net.log|
  {
    && r.entry < |m.origin| && m.origin[r.entry] < |m.packets|
    && m.fate[r.entry] == Delivered
    && r.node == m.packets[m.origin[r.entry]].dst
    && r.payload == m.packets[m.origin[r.entry]].payload
  }

  ghost predicate Receipts(m: Mesh)
    requires |m.origin| == |m.fate| == |m.net.log|
  {
    && (forall k | 0 <= k < |m.receipts| :: Proper(m, m.receipts[k]))
    && (forall k, l | 0 <= k < l < |m.receipts| :: m.receipts[k].entry != m.receipts[l].entry)
  }

  ghost predicate MeshInv(m: Mesh) {
    && Inv(m.net)
    && |m.origin| == |m.fate| == |m.net.log|
    && (forall i | 0 <= i < |m.origin| :: m.origin[i] < |m.packets| && Carries(m.packets[m.origin[i]], m.net.log[i]))
    && (forall i | 0 <= i < |m.fate| && m.fate[i] != Pending :: Spent(m.net, i))
    && Line(m)
    && Receipts(m)
  }

  ghost predicate InitMesh(m: Mesh) {
    InitNet(m.net) && m.packets == [] && m.origin == [] && m.fate == [] && m.receipts == []
  }

  // ---------------------------------------------------------------- steps keep it

  /** What it takes of a net change for the books to stay true: nothing is forgotten. */
  ghost predicate Extends(n: Net, n': Net) {
    && Inv(n')
    && |n.log| <= |n'.log| && n'.log[..|n.log|] == n.log
    && forall i | 0 <= i < |n.log| && Spent(n, i) :: Spent(n', i)
  }

  lemma NetStepExtends(n: Net, ev: SecureNet.Event)
    requires Inv(n) && SecureNet.Enabled(n, ev)
    ensures Extends(n, SecureNet.Step(n, ev))
  {
    StepKeepsInv(n, ev);
    StepAdvances(n, ev);
    forall i | 0 <= i < |n.log| && Spent(n, i)
      ensures Spent(SecureNet.Step(n, ev), i)
    {
      SpentStays(n, ev, i);
    }
  }

  lemma ReceiptsStay(m: Mesh, m': Mesh)
    requires |m.origin| == |m.fate| == |m.net.log| && |m'.origin| == |m'.fate| == |m'.net.log|
    requires m.origin <= m'.origin && m.fate <= m'.fate && m.packets <= m'.packets && m'.receipts == m.receipts
    requires Receipts(m)
    ensures Receipts(m')
  {
    forall k | 0 <= k < |m.receipts|
      ensures Proper(m', m'.receipts[k])
    {
      assert Proper(m, m.receipts[k]);
    }
  }

  /** A net step that seals nothing keeps the mesh invariant. */
  lemma QuietStep(m: Mesh, n': Net)
    requires MeshInv(m) && Extends(m.net, n') && n'.log == m.net.log
    ensures MeshInv(m.(net := n'))
  {
    ReceiptsStay(m, m.(net := n'));
  }

  /** Sealing one more frame for `pid` keeps the invariant if it continues the packet's line. */
  lemma SealedStep(m: Mesh, n': Net, s: Sent, pid: nat)
    requires MeshInv(m) && Extends(m.net, n') && n'.log == m.net.log + [s]
    requires pid < |m.packets| && Carries(m.packets[pid], s)
    requires forall i | 0 <= i < |m.origin| && m.origin[i] == pid ::
               m.fate[i] == Relayed && Ttl(m.net.log[i]) > Ttl(s)
    ensures MeshInv(m.(net := n', origin := m.origin + [pid], fate := m.fate + [Pending]))
  {
    var m' := m.(net := n', origin := m.origin + [pid], fate := m.fate + [Pending]);
    ReceiptsStay(m, m');
    LineGrows(m, m', s, pid);
  }

  lemma LineGrows(m: Mesh, m': Mesh, s: Sent, pid: nat)
    requires |m.origin| == |m.fate| == |m.net.log| && Line(m)
    requires forall i | 0 <= i < |m.origin| && m.origin[i] == pid ::
               m.fate[i] == Relayed && Ttl(m.net.log[i]) > Ttl(s)
    requires m'.net.log == m.net.log + [s] && m'.origin == m.origin + [pid] && m'.fate == m.fate + [Pending]
    ensures Line(m')
  {
  }

  /** `SealTo` is a seal step of the net, or does nothing. */
  lemma SealToIsStep(n: Net, me: u32, next: u32, h: Header, payload: seq<byte>)
    requires Inv(n)
    ensures var fx, e := SealTo(n.ends, me, next, h, payload), End(me, next);
      if e !in n.ends then fx == Effect(n.ends, Dropped(NoRoute), None)
      else
        && fx.out.Some? && fx.answer == Forwarded(next)
        && Net(fx.ends, n.log + [fx.out.value.sent]) == SecureNet.Step(n, DoSeal(e, Encode(h), payload))
        && fx.out.value.sent.ct.Enc? && fx.out.value.sent.ct.aad == Encode(h) && fx.out.value.sent.ct.msg == payload
  {
    if End(me, next) in n.ends {
      SealIsNext(n, End(me, next), Encode(h), payload);
    }
  }

  /** Routing a packet's next frame keeps the invariant. */
  lemma RouteKeeps(m: Mesh, me: u32, next: Option<u32>, h: Header, pid: nat)
    requires MeshInv(m) && pid < |m.packets| && h.ttl <= DEFAULT_TTL
    requires var p := m.packets[pid]; h == Header(Data, p.src, p.dst, h.ttl)
    requires forall i | 0 <= i < |m.origin| && m.origin[i] == pid ::
               m.fate[i] == Relayed && Ttl(m.net.log[i]) > h.ttl
    ensures MeshInv(Book(m, Route(m.net.ends, me, next, h, m.packets[pid].payload), pid))
  {
    var fx := Route(m.net.ends, me, next, h, m.packets[pid].payload);
    if next.Some? {
      SealToIsStep(m.net, me, next.value, h, m.packets[pid].payload);
    }
    if fx.out.Some? {
      var ev := DoSeal(End(me, next.value), Encode(h), m.packets[pid].payload);
      NetStepExtends(m.net, ev);
      SealedStep(m, SecureNet.Step(m.net, ev), fx.out.value.sent, pid);
    } else {
      assert Book(m, fx, pid) == m;
    }
  }

  lemma LineSettled(m: Mesh, i: nat, answer: Delivery, me: u32)
    requires |m.origin| == |m.fate| == |m.net.log| && Line(m) && i < |m.fate| && m.fate[i] == Pending
    ensures Line(Settled(m, i, answer, me))
  {
  }

  lemma ReceiptsSettled(m: Mesh, i: nat, answer: Delivery, me: u32)
    requires |m.origin| == |m.fate| == |m.net.log| && Receipts(m) && i < |m.fate| && m.fate[i] == Pending
    requires answer.Local? ==>
      && m.origin[i] < |m.packets|
      && me == m.packets[m.origin[i]].dst && answer.payload == m.packets[m.origin[i]].payload
    ensures Receipts(Settled(m, i, answer, me))
  {
    forall k | 0 <= k < |m.receipts|
      ensures Proper(Settled(m, i, answer, me), m.receipts[k]) && m.receipts[k].entry != i
    {
      assert Proper(m, m.receipts[k]);
    }
  }

  /** Settling the fate of a pending frame that is now spent keeps the invariant. */
  lemma SettledKeeps(m: Mesh, i: nat, answer: Delivery, me: u32)
    requires MeshInv(m) && i < |m.fate| && m.fate[i] == Pending && Spent(m.net, i)
    requires answer.Local? ==> me == m.packets[m.origin[i]].dst && answer.payload == m.packets[m.origin[i]].payload
    ensures MeshInv(Settled(m, i, answer, me))
  {
    LineSettled(m, i, answer, me);
    ReceiptsSettled(m, i, answer, me);
  }

  /** Frame `i` is waiting to be opened; every other frame of its packet was relayed with hops to spare. */
  ghost predicate LastOfLine(m: Mesh, i: nat)
    requires |m.origin| == |m.fate| == |m.net.log|
  {
    && i < |m.fate| && m.fate[i] == Pending
    && forall k | 0 <= k < |m.origin| && k != i && m.origin[k] == m.origin[i] ::
         m.fate[k] == Relayed && Ttl(m.net.log[k]) > Ttl(m.net.log[i])
  }

  lemma PendingIsLast(m: Mesh, i: nat)
    requires |m.origin| == |m.fate| == |m.net.log| && Line(m) && i < |m.fate| && m.fate[i] == Pending
    ensures LastOfLine(m, i)
  {
  }

  /** The net in which the frame has been opened. */
  ghost function OpenedNet(m: Mesh, ev: Event): Net
    requires ev.Receive? && End(ev.me, ev.from) in m.net.ends
  {
    var e := End(ev.me, ev.from);
    m.net.(ends := m.net.ends[e := OpenStep(m.net.ends[e], ev.hdr, ev.body).0])
  }

  /** A frame that opens was pending, and carries its packet. */
  lemma OpenedIsPending(m: Mesh, ev: Event)
    requires MeshInv(m) && ev.Receive? && Enabled(m, ev) && Opens(m, ev)
    ensures var i, e := EntryOf(m.net.log, ev.body.ct), End(ev.me, ev.from);
      && m.fate[i] == Pending
      && Extends(m.net, OpenedNet(m, ev)) && Spent(OpenedNet(m, ev), i)
      && OpenStep(m.net.ends[e], ev.hdr, ev.body).1 == Ok(m.packets[m.origin[i]].payload)
      && m.net.log[i].ct.aad == ev.hdr
  {
    var i, e := EntryOf(m.net.log, ev.body.ct), End(ev.me, ev.from);
    var j := OpenSpends(m.net, e, ev.hdr, ev.body);
    CiphertextsDistinct(m.net, i, j);
    NetStepExtends(m.net, DoOpen(e, ev.hdr, ev.body));
    assert Carries(m.packets[m.origin[i]], m.net.log[i]);
  }

  /** What the router does with a data frame it has opened. */
  lemma DispatchData(ends: map<End, State>, me: u32, from: u32, p: Packet, ttl: byte, next: Option<u32>)
    ensures Dispatch(ends, me, from, Encode(Header(Data, p.src, p.dst, ttl)), p.payload, next)
      == if p.dst == me then Effect(ends, Local(p.payload), None)
         else if ttl == 0 then Effect(ends, Dropped(TtlExpired), None)
         else Route(ends, me, next, Header(Data, p.src, p.dst, ttl - 1), p.payload)
  {
    var hdr := Encode(Header(Data, p.src, p.dst, ttl));
    ParseEncode(Header(Data, p.src, p.dst, ttl), []);
    assert hdr + [] == hdr;
  }

  /** Acting on the opened frame `i`, the last of its line, keeps the invariant. */
  lemma DispatchKeeps(m: Mesh, i: nat, me: u32, from: u32, next: Option<u32>, fx: Effect)
    requires MeshInv(m) && i < |m.fate| && m.fate[i] == Pending && Spent(m.net, i) && m.net.log[i].ct.Enc?
    requires fx == Dispatch(m.net.ends, me, from, m.net.log[i].ct.aad, m.packets[m.origin[i]].payload, next)
    ensures MeshInv(Book(Settled(m, i, fx.answer, me), fx, m.origin[i]))
  {
    var p, ttl := m.packets[m.origin[i]], Ttl(m.net.log[i]);
    var m2 := Settled(m, i, fx.answer, me);
    assert Carries(p, m.net.log[i]);
    DispatchData(m.net.ends, me, from, p, ttl, next);
    if p.dst != me && ttl > 0 {
      RouteAnswers(m.net, me, next, Header(Data, p.src, p.dst, ttl - 1), p.payload);
    }
    SettledKeeps(m, i, fx.answer, me);
    if fx.answer.Forwarded? {
      PendingIsLast(m, i);
      RouteKeeps(m2, me, next, Header(Data, p.src, p.dst, ttl - 1), m.origin[i]);
    } else {
      assert Book(m2, fx, m.origin[i]) == m2;
    }
  }

  /** The step taken for a frame that opens. */
  lemma ReceiveStep(m: Mesh, ev: Event, payload: seq<byte>)
    requires ev.Receive? && Enabled(m, ev) && Opens(m, ev) && |m.origin| == |m.fate| == |m.net.log|
    requires OpenStep(m.net.ends[End(ev.me, ev.from)], ev.hdr, ev.body).1 == Ok(payload)
    ensures var i, n1 := EntryOf(m.net.log, ev.body.ct), OpenedNet(m, ev);
      var fx := Dispatch(n1.ends, ev.me, ev.from, ev.hdr, payload, ev.next);
      Step(m, ev) == Book(Settled(m.(net := n1), i, fx.answer, ev.me), fx, m.origin[i])
  {
  }

  lemma ReceiveKeeps(m: Mesh, ev: Event)
    requires MeshInv(m) && ev.Receive? && Enabled(m, ev) && Opens(m, ev)
    ensures MeshInv(Step(m, ev))
  {
    var i, n1 := EntryOf(m.net.log, ev.body.ct), OpenedNet(m, ev);
    OpenedIsPending(m, ev);
    var payload := m.packets[m.origin[i]].payload;
    QuietStep(m, n1);
    ReceiveStep(m, ev, payload);
    var fx := Dispatch(n1.ends, ev.me, ev.from, ev.hdr, payload, ev.next);
    DispatchKeeps(m.(net := n1), i, ev.me, ev.from, ev.next, fx);
  }

  /** Routing either forwards, or changes nothing. */
  lemma RouteAnswers(n: Net, me: u32, next: Option<u32>, h: Header, payload: seq<byte>)
    requires Inv(n)
    ensures var fx := Route(n.ends, me, next, h, payload);
      fx.answer.Forwarded? || fx == Effect(n.ends, Dropped(NoRoute), None)
  {
    if next.Some? {
      SealToIsStep(n, me, next.value, h, payload);
    }
  }

  /** A delivery that does not open leaves the mesh as it was. */
  lemma UnopenedIsNoOp(m: Mesh, ev: Event)
    requires ev.Receive? && Enabled(m, ev) && !Opens(m, ev) && |m.origin| == |m.fate| == |m.net.log|
    ensures Step(m, ev) == m
  {
    var e := End(ev.me, ev.from);
    if e in m.net.ends {
      assert m.net.ends[e := m.net.ends[e]] == m.net.ends;
    }
  }

  lemma StepKeeps(m: Mesh, ev: Event)
    requires MeshInv(m) && Enabled(m, ev)
    ensures MeshInv(Step(m, ev))
  {
    match ev
    case Send(me, dst, payload, next) =>
      SendKeeps(m, Packet(me, dst, payload), me, if dst == me then None else next);
    case Direct(me, peer, payload) =>
      SendKeeps(m, Packet(me, peer, payload), me, Some(peer));
    case Receive(_, _, _, _, _) =>
      if Opens(m, ev) {
        ReceiveKeeps(m, ev);
      } else {
        UnopenedIsNoOp(m, ev);
      }
    case Rekey(me, peer) =>
      var re := DoRatchet(End(me, peer));
      NetStepExtends(m.net, re);
      QuietStep(m, SecureNet.Step(m.net, re));
  }

  lemma SendKeeps(m: Mesh, p: Packet, me: u32, next: Option<u32>)
    requires MeshInv(m) && p.src == me
    ensures MeshInv(Originate(m, p, Route(m.net.ends, me, next, Header(Data, me, p.dst, DEFAULT_TTL), p.payload)))
  {
    var m1 := m.(packets := m.packets + [p]);
    ReceiptsStay(m, m1);
    RouteKeeps(m1, me, next, Header(Data, me, p.dst, DEFAULT_TTL), |m.packets|);
  }

  // ---------------------------------------------------------------- whole runs

  ghost predicate EnabledRun(m: Mesh, evs: seq<Event>)
    decreases |evs|
  {
    evs == [] || (Enabled(m, evs[0]) && |m.origin| == |m.fate| == |m.net.log| && EnabledRun(Step(m, evs[0]), evs[1..]))
  }

  ghost function Run(m: Mesh, evs: seq<Event>): Mesh
    requires EnabledRun(m, evs)
    decreases |evs|
  {
    if evs == [] then m else Run(Step(m, evs[0]), evs[1..])
  }

  lemma {:induction false} RunKeeps(m: Mesh, evs: seq<Event>)
    requires MeshInv(m) && EnabledRun(m, evs)
    ensures MeshInv(Run(m, evs))
    decreases |evs|
  {
    if evs != [] {
      StepKeeps(m, evs[0]);
      RunKeeps(Step(m, evs[0]), evs[1..]);
    }
  }

  /** How many frames were ever sealed for packet `pid`. */
  function Copies(origin: seq<nat>, pid: nat): nat {
    if origin == [] then 0
    else Copies(origin[..|origin| - 1], pid) + if origin[|origin| - 1] == pid then 1 else 0
  }

  lemma {:induction false} CopiesBound(origin: seq<nat>, log: seq<Sent>, pid: nat, t: nat)
    requires |origin| == |log| && t <= 9
    requires forall i | 0 <= i < |origin| && origin[i] == pid :: t <= Ttl(log[i]) <= DEFAULT_TTL
    requires forall i, j | 0 <= i < j < |origin| && origin[i] == pid == origin[j] :: Ttl(log[i]) > Ttl(log[j])
    ensures Copies(origin, pid) <= 9 - t
  {
    if origin != [] {
      var n := |origin| - 1;
      CopiesBound(origin[..n], log[..n], pid, if origin[n] == pid then Ttl(log[n]) + 1 else t);
    }
  }

  lemma InvBoundsCopies(m: Mesh, pid: nat)
    requires MeshInv(m) && pid < |m.packets|
    ensures Copies(m.origin, pid) <= 9
    ensures forall i | 0 <= i < |m.origin| && m.origin[i] == pid :: Carries(m.packets[pid], m.net.log[i])
  {
    CopiesBound(m.origin, m.net.log, pid, 0);
  }

  /** Every receipt for packet `pid` is at its destination, of its payload; and there is one at most. */
  ghost predicate HandedUpOnce(m: Mesh, pid: nat)
    requires pid < |m.packets|
  {
    && (forall k | 0 <= k < |m.receipts| :: m.receipts[k].entry < |m.origin|)
    && (forall k | 0 <= k < |m.receipts| && m.origin[m.receipts[k].entry] == pid ::
         m.receipts[k].node == m.packets[pid].dst && m.receipts[k].payload == m.packets[pid].payload)
    && (forall k, l | 0 <= k < l < |m.receipts| ::
         !(m.origin[m.receipts[k].entry] == pid && m.origin[m.receipts[l].entry] == pid))
  }

  lemma InvHandsUpOnce(m: Mesh, pid: nat)
    requires MeshInv(m) && pid < |m.packets|
    ensures HandedUpOnce(m, pid)
  {
    forall k | 0 <= k < |m.receipts|
      ensures m.receipts[k].entry < |m.origin|
      ensures m.origin[m.receipts[k].entry] == pid ==>
        m.receipts[k].node == m.packets[pid].dst && m.receipts[k].payload == m.packets[pid].payload
    {
      assert Proper(m, m.receipts[k]);
    }
    forall k, l | 0 <= k < l < |m.receipts|
      ensures m.origin[m.receipts[k].entry] != m.origin[m.receipts[l].entry]
    {
      assert Proper(m, m.receipts[k]) && Proper(m, m.receipts[l]);
    }
  }

  /**
    Whatever the transport delivers and whatever the routing tables say, loops
    included: a packet is sealed at most nine times, every time with its source,
    destination and payload unchanged; and it is handed up at most once, at its
    destination, with the original payload.
   */
  lemma PacketSafety(m0: Mesh, evs: seq<Event>, pid: nat)
    requires InitMesh(m0) && EnabledRun(m0, evs) && pid < |Run(m0, evs).packets|
    ensures var m := Run(m0, evs);
      && |m.origin| == |m.net.log|
      && Copies(m.origin, pid) <= 9
      && (forall i | 0 <= i < |m.origin| && m.origin[i] == pid :: Carries(m.packets[pid], m.net.log[i]))
      && HandedUpOnce(m, pid)
  {
    InitInv(m0.net);
    RunKeeps(m0, evs);
    InvBoundsCopies(Run(m0, evs), pid);
    InvHandsUpOnce(Run(m0, evs), pid);
  }
}
