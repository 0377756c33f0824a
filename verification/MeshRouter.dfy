/** The router object: routing state, one session per link, and what was handed to the transports. */
module MeshRouter {
  import opened Widths
  import opened Bytes
  import opened Wire
  import opened Etx
  import opened Routing
  import opened Failover
  import SecureNet
  import Forward
  import S = Session

  /** A frame given to the transport of link `to`. */
  datatype Datagram = Datagram(to: NodeId, hdr: seq<byte>, frame: S.Frame)

  /** The outbox after a node's effect. */
  ghost function Posted(outbox: seq<Datagram>, out: Option<Forward.Out>): seq<Datagram> {
    match out
    case None => outbox
    case Some(o) => outbox + [Datagram(o.sent.from.peer, o.hdr, o.frame)]
  }

  // ---------------------------------------------------------------- sorting candidates

  /** Distinct hops of `m`, cheapest first. */
  ghost predicate Sorted(m: map<NodeId, Metric>, ks: seq<NodeId>) {
    ks == [] ||
    (&& ks[0] in m && ks[0] !in ks[1..]
     && (forall x | x in ks[1..] :: x in m && !m[x].Less(m[ks[0]]))
     && Sorted(m, ks[1..]))
  }

  function Insert(m: map<NodeId, Metric>, k: NodeId, ks: seq<NodeId>): (r: seq<NodeId>)
    requires k in m && k !in ks && Sorted(m, ks)
    ensures Sorted(m, r) && forall x :: x in r <==> x == k || x in ks
  {
    if ks == [] then [k]
    else if m[ks[0]].Less(m[k]) then
      var rest := Insert(m, k, ks[1..]);
      assert ([ks[0]] + rest)[1..] == rest;
      [ks[0]] + rest
    else
      assert ([k] + ks)[1..] == ks;
      [k] + ks
  }

  function Sort(m: map<NodeId, Metric>, ks: seq<NodeId>): (r: seq<NodeId>)
    requires forall i, j | 0 <= i < j < |ks| :: ks[i] != ks[j]
    requires forall k | k in ks :: k in m
    ensures Sorted(m, r) && forall x :: x in r <==> x in ks
  {
    if ks == [] then [] else Insert(m, ks[0], Sort(m, ks[1..]))
  }

  /** The first two of the sorted candidates are a ranking. */
  lemma TopTwo(m: map<NodeId, Metric>, ks: seq<NodeId>)
    requires Sorted(m, ks) && forall x :: x in ks <==> x in m
    ensures IsRanking(m, if ks == [] then UNRANKED else Ranked(Some(ks[0]), if |ks| > 1 then Some(ks[1]) else None))
  {
    if ks == [] {
      assert forall x :: x !in m;
    } else {
      assert forall x | x in m :: x == ks[0] || x in ks[1..];
      if |ks| > 1 {
        assert ks[1] == ks[1..][0];
        assert forall x | x in ks[1..] :: x == ks[1] || x in ks[1..][1..];
      }
    }
  }

  lemma LiveIgnoresRanked(r: Router, ranked: map<NodeId, Ranked>, dst: NodeId)
    ensures Live(r.(ranked := ranked), dst) == Live(r, dst)
  {
  }

  /** The rankings of `dsts` are recomputed, the others as they were. */
  ghost predicate RankedAgain(r: Router, dsts: set<NodeId>, ranked: map<NodeId, Ranked>) {
    && ranked.Keys == r.ranked.Keys + dsts
    && (forall dst | dst in dsts :: IsRanking(Live(r, dst), ranked[dst]))
    && (forall dst | dst in r.ranked && dst !in dsts :: ranked[dst] == r.ranked[dst])
  }

  lemma RankOneMore(r: Router, dsts: set<NodeId>, ranked: map<NodeId, Ranked>, dst: NodeId, k: Ranked)
    requires RankedAgain(r, dsts, ranked) && IsRanking(Live(r, dst), k)
    ensures RankedAgain(r, dsts + {dst}, ranked[dst := k])
  {
    var after := ranked[dst := k];
    forall d | d in dsts + {dst}
      ensures IsRanking(Live(r, d), after[d])
    {
      assert after[d] == if d == dst then k else ranked[d];
    }
  }

  // ---------------------------------------------------------------- sessions by link

  /** A node's sessions, keyed by link end. */
  ghost function AsEnds(id: NodeId, m: map<NodeId, S.State>): (r: map<SecureNet.End, S.State>)
    ensures forall e :: e in r <==> e.me == id && e.peer in m
    ensures forall p | p in m :: r[SecureNet.End(id, p)] == m[p]
  {
    map p | p in m :: SecureNet.End(id, p) := m[p]
  }

  lemma AsEndsUpdate(id: NodeId, m: map<NodeId, S.State>, p: NodeId, s: S.State)
    ensures AsEnds(id, m[p := s]) == AsEnds(id, m)[SecureNet.End(id, p) := s]
  {
    var a, b := AsEnds(id, m[p := s]), AsEnds(id, m)[SecureNet.End(id, p) := s];
    forall e | e in a
      ensures e in b && a[e] == b[e]
    {
      assert e == SecureNet.End(id, e.peer);
    }
  }

  /** A node's sessions and what it has sent so far. */
  datatype Snapshot = Snapshot(ends: map<SecureNet.End, S.State>, outbox: seq<Datagram>) {
    /** After an effect, with the answer given. */
    ghost function After(fx: Forward.Effect): (Snapshot, Forward.Delivery) {
      (Snapshot(fx.ends, Posted(outbox, fx.out)), fx.answer)
    }
  }

  /** `SealTo` on a node's sessions. */
  lemma SealToSessions(id: NodeId, m: map<NodeId, S.State>, outbox: seq<Datagram>, next: NodeId, h: Header, payload: seq<byte>)
    ensures var after := Snapshot(AsEnds(id, m), outbox).After(Forward.SealTo(AsEnds(id, m), id, next, h, payload));
      if next !in m then after == (Snapshot(AsEnds(id, m), outbox), Forward.Dropped(Forward.NoRoute))
      else
        var (s, r) := S.SealStep(m[next], Encode(h), payload);
        after == match r
          case Ok(f) =>
            (Snapshot(AsEnds(id, m[next := s]), outbox + [Datagram(next, Encode(h), f)]), Forward.Forwarded(next))
          case Err(x) => (Snapshot(AsEnds(id, m[next := s]), outbox), Forward.Dropped(Forward.SealFailed(x)))
  {
    var e := SecureNet.End(id, next);
    if next in m {
      AsEndsUpdate(id, m, next, S.SealStep(m[next], Encode(h), payload).0);
    } else {
      assert e !in AsEnds(id, m);
    }
  }

  /** `HandleFrame` on a node's sessions. */
  lemma HandleSessions(id: NodeId, m: map<NodeId, S.State>, from: NodeId, hdr: seq<byte>, body: S.Frame, next: Option<NodeId>)
    requires |hdr| >= HEADER_LEN && from in m
    ensures var (s, r) := S.OpenStep(m[from], hdr, body);
      Forward.HandleFrame(AsEnds(id, m), id, from, hdr, body, next) == match r
        case Err(x) => Forward.Effect(AsEnds(id, m[from := s]), Forward.Dropped(Forward.Unopened(x)), None)
        case Ok(payload) => Forward.Dispatch(AsEnds(id, m[from := s]), id, from, hdr, payload, next)
  {
    AsEndsUpdate(id, m, from, S.OpenStep(m[from], hdr, body).0);
  }

  /** Everything sent leaves as one datagram to the neighbour named in the answer; nothing else is posted. */
  lemma PostsWhatIsSent(id: NodeId, m: map<NodeId, S.State>, outbox: seq<Datagram>, next: Option<NodeId>, h: Header, payload: seq<byte>)
    requires forall p | p in m :: m[p].tx < S.REKEY_HARD_CAP
    ensures var (after, answer) := Snapshot(AsEnds(id, m), outbox).After(Forward.Route(AsEnds(id, m), id, next, h, payload));
      if next.Some? && next.value in m
      then answer == Forward.Forwarded(next.value) && |after.outbox| == |outbox| + 1 && after.outbox[..|outbox|] == outbox
        && var d := after.outbox[|outbox|];
           d.to == next.value && d.hdr == Encode(h) && S.SealStep(m[next.value], Encode(h), payload).1 == S.Ok(d.frame)
      else answer == Forward.Dropped(Forward.NoRoute) && after == Snapshot(AsEnds(id, m), outbox)
  {
    if next.Some? {
      SealToSessions(id, m, outbox, next.value, h, payload);
    }
  }

  // ---------------------------------------------------------------- the object

  class MeshRouter {
    const id: NodeId
    const etx: EtxTable
    /** One session per linked neighbour. */
    var links: map<NodeId, S.State>
    var routes: map<NodeId, NodeId>
    var rankedHops: map<NodeId, Ranked>
    var rankedCandidates: map<NodeId, seq<Candidate>>
    /** What the links' transports were given, in order. */
    var outbox: seq<Datagram>

    /** The routing state. */
    function State(): Router
      reads this, etx
    {
      Router(id, etx.Contents(), links.Keys, routes, rankedHops, rankedCandidates)
    }

    constructor (me: NodeId, window: nat)
      ensures fresh(etx) && links == map[] && outbox == []
      ensures State() == Router(me, Table(if window < 1 then 1 else window, map[], map[]), {}, map[], map[], map[])
    {
      id := me;
      etx := new EtxTable(window);
      links, routes, rankedHops, rankedCandidates, outbox := map[], map[], map[], map[], [];
    }

    method Observe(peer: NodeId, weHeard: bool, theyHeard: bool)
      modifies etx
      ensures Failover.Step(old(State()), Op.Observe(peer, weHeard, theyHeard), State())
    {
      etx.Record(peer, weHeard, theyHeard);
    }

    method AddRoute(dst: NodeId, via: NodeId)
      modifies this`routes
      ensures Failover.Step(old(State()), Op.AddRoute(dst, via), State())
    {
      routes := routes[dst := via];
    }

    /** `recompute_ranked_hops`. */
    method RecomputeRankedHops(dst: NodeId)
      modifies this`rankedHops
      ensures Recomputed(old(State()), dst, State())
    {
      var byHop := LiveCandidates(dst);
      var ks := HopsInSomeOrder(byHop);
      var sorted := Sort(byHop, ks);
      TopTwo(byHop, sorted);
      var k := if sorted == [] then UNRANKED
               else Ranked(Some(sorted[0]), if |sorted| > 1 then Some(sorted[1]) else None);
      rankedHops := rankedHops[dst := k];
    }

    /** The first half of `recompute_ranked_hops`: collect candidates and drop the dead ones. */
    method LiveCandidates(dst: NodeId) returns (byHop: map<NodeId, Metric>)
      ensures byHop == Live(State(), dst)
    {
      byHop := map[];
      if dst in rankedCandidates {
        var cs := rankedCandidates[dst];
        for i := 0 to |cs|
          invariant byHop == ByHop(cs[..i])
        {
          assert cs[..i + 1][..i] == cs[..i];
          byHop := byHop[cs[i].hop := cs[i].cost];
        }
        assert cs[..|cs|] == cs;
      }
      if dst in etx.routes && etx.routes[dst].next !in byHop {
        byHop := byHop[etx.routes[dst].next := etx.routes[dst].cost];
      }
      assert byHop == Proposed(State(), dst);
      if byHop == map[] {
        byHop := LiveRelays(dst);
      }
      byHop := map h | h in byHop && !etx.Contents().Dead(h) :: byHop[h];
    }

    /** The fallback of `recompute_ranked_hops`: live direct links. */
    method LiveRelays(dst: NodeId) returns (byHop: map<NodeId, Metric>)
      ensures byHop == Relays(State(), dst)
    {
      byHop := map[];
      var todo := links.Keys;
      while todo != {}
        invariant todo <= links.Keys
        invariant byHop == map h | h in links.Keys - todo && h != dst && h != id && etx.Contents().Finite(h) :: etx.links[h].Cost()
      {
        var h :| h in todo;
        todo := todo - {h};
        if h != dst && h != id && etx.Contents().Finite(h) {
          byHop := byHop[h := etx.links[h].Cost()];
        }
      }
    }

    method LearnRoute(dst: NodeId, via: NodeId, advertised: Metric) returns (learned: bool)
      modifies this`rankedHops, etx
      ensures Failover.Step(old(State()), Op.Learn(dst, via, advertised), State())
      ensures learned == old(State()).table.Accepts(dst, via, old(State()).table.PathCost(via, advertised))
    {
      var cost := etx.Contents().PathCost(via, advertised);
      learned := etx.LearnRoute(dst, via, cost);
      if learned {
        RecomputeRankedHops(dst);
      }
    }

    method LearnRouteForRanked(dst: NodeId, via: NodeId, advertised: Metric)
      modifies this`rankedHops, this`rankedCandidates
      ensures Failover.Step(old(State()), Op.LearnRanked(dst, via, advertised), State())
    {
      var cost := etx.Contents().PathCost(via, advertised);
      var cs := if dst in rankedCandidates then rankedCandidates[dst] else [];
      var i := 0;
      while i < |cs| && cs[i].hop != via
        invariant 0 <= i <= |cs| && forall k | 0 <= k < i :: cs[k].hop != via
      {
        i := i + 1;
      }
      UpsertAt(cs, via, cost, i);
      rankedCandidates := rankedCandidates[dst := if i < |cs| then cs[i := Candidate(via, cost)] else cs + [Candidate(via, cost)]];
      RecomputeRankedHops(dst);
    }

    /** `next_hop`. */
    method ChooseNextHop(dst: NodeId) returns (hop: Option<NodeId>)
      ensures NextHop(State(), dst, hop)
    {
      if dst == id {
        return None;
      }
      var t := etx.Contents();
      if dst in links && !t.Dead(dst) {
        return Some(dst);
      }
      if dst in routes {
        return Some(routes[dst]);
      }
      if dst in t.routes && t.Finite(t.routes[dst].next) {
        return Some(t.routes[dst].next);
      }
      var k := RankedFor(State(), dst);
      if k.primary.Some? {
        if t.Finite(k.primary.value) {
          return k.primary;
        }
        if k.backup.Some? && t.Finite(k.backup.value) {
          return k.backup;
        }
      }
      hop := etx.BestNextHop();
    }

    /** `force_dead`: kill the link, hot-swap the rankings, recompute the affected ones. */
    method ForceDead(peer: NodeId)
      modifies this`rankedHops, etx
      ensures Failover.Step(old(State()), Op.ForceDead(peer), State())
    {
      etx.ForceDead(peer);
      var affected := set dst | dst in rankedCandidates && Proposes(State(), dst, peer);
      var toUpdate := HotSwap(peer);
      ghost var r := State();
      RecomputeAll(affected + toUpdate);
      forall dst
        ensures Live(State(), dst) == Live(r, dst)
      {
        LiveIgnoresRanked(r, rankedHops, dst);
      }
    }

    /** The last loop of `force_dead`. */
    method RecomputeAll(dsts: set<NodeId>)
      modifies this`rankedHops
      ensures RankedAgain(old(State()), dsts, rankedHops)
    {
      ghost var r := State();
      ghost var done := {};
      var todo := dsts;
      while todo != {}
        invariant done !! todo && done + todo == dsts
        invariant RankedAgain(r, done, rankedHops)
      {
        var dst :| dst in todo;
        todo := todo - {dst};
        ghost var before := rankedHops;
        LiveIgnoresRanked(r, before, dst);
        RecomputeRankedHops(dst);
        RankOneMore(r, done, before, dst, rankedHops[dst]);
        done := done + {dst};
      }
    }

    /** The loop of `force_dead` over the rankings; answers the destinations whose primary was swapped out. */
    method HotSwap(peer: NodeId) returns (toUpdate: set<NodeId>)
      modifies this`rankedHops
      ensures rankedHops == map dst | dst in old(rankedHops) :: Swapped(old(rankedHops)[dst], peer)
      ensures toUpdate == set dst | dst in old(rankedHops) && old(rankedHops)[dst].primary == Some(peer)
    {
      toUpdate := {};
      var todo := rankedHops.Keys;
      while todo != {}
        invariant todo <= rankedHops.Keys == old(rankedHops).Keys
        invariant forall dst | dst in rankedHops ::
          rankedHops[dst] == if dst in todo then old(rankedHops)[dst] else Swapped(old(rankedHops)[dst], peer)
        invariant toUpdate == set dst | dst in old(rankedHops).Keys - todo && old(rankedHops)[dst].primary == Some(peer)
      {
        var dst :| dst in todo;
        todo := todo - {dst};
        var k := rankedHops[dst];
        if k.primary == Some(peer) {
          rankedHops := rankedHops[dst := Ranked(k.backup, None)];
          toUpdate := toUpdate + {dst};
        } else if k.backup == Some(peer) {
          rankedHops := rankedHops[dst := Ranked(k.primary, None)];
        }
      }
    }

    method AddLink(peer: NodeId, session: S.State)
      modifies this`links
      ensures links == old(links)[peer := session]
      ensures Failover.Step(old(State()), Op.AddLink(peer), State())
    {
      links := links[peer := session];
    }

    /** The sessions, by link end. */
    ghost function Ends(): map<SecureNet.End, S.State>
      reads this`links
    {
      AsEnds(id, links)
    }

    /** Everything that sending and receiving can change. */
    ghost function Traffic(): Snapshot
      reads this`links, this`outbox
    {
      Snapshot(Ends(), outbox)
    }

    /** `seal_to`. */
    method SealTo(next: NodeId, h: Header, payload: seq<byte>) returns (answer: Forward.Delivery)
      modifies this`outbox, this`links
      ensures State() == old(State())
      ensures (Traffic(), answer) == old(Traffic()).After(Forward.SealTo(old(Ends()), id, next, h, payload))
    {
      var hdr := ToBytes(h);
      var aad := hdr[..];
      SealToSessions(id, links, outbox, next, h, payload);
      if next !in links {
        return Forward.Dropped(Forward.NoRoute);
      }
      var (s, r) := S.SealStep(links[next], aad, payload);
      links := links[next := s];
      assert links.Keys == old(links.Keys);
      match r
      case Ok(sealed) =>
        outbox := outbox + [Datagram(next, aad, sealed)];
        answer := Forward.Forwarded(next);
      case Err(e) =>
        answer := Forward.Dropped(Forward.SealFailed(e));
    }

    /** Send to the next hop toward `dst`, if there is one. */
    method RouteTo(dst: NodeId, h: Header, payload: seq<byte>) returns (answer: Forward.Delivery, ghost next: Option<NodeId>)
      modifies this`outbox, this`links
      ensures State() == old(State())
      ensures NextHop(old(State()), dst, next)
      ensures (Traffic(), answer) == old(Traffic()).After(Forward.Route(old(Ends()), id, next, h, payload))
    {
      var hop := ChooseNextHop(dst);
      next := hop;
      if hop.None? {
        return Forward.Dropped(Forward.NoRoute), next;
      }
      answer := SealTo(hop.value, h, payload);
    }

    /** `send_ip`. */
    method SendIp(dst: NodeId, payload: seq<byte>) returns (answer: Forward.Delivery, ghost next: Option<NodeId>)
      modifies this`outbox, this`links
      ensures State() == old(State())
      ensures NextHop(old(State()), dst, next)
      ensures (Traffic(), answer) == old(Traffic()).After(Forward.SendIp(old(Ends()), id, dst, payload, next))
    {
      answer, next := RouteTo(dst, Header(Data, id, dst, Forward.DEFAULT_TTL), payload);
    }

    /** `send_direct`. */
    method SendDirect(peer: NodeId, payload: seq<byte>) returns (answer: Forward.Delivery)
      modifies this`outbox, this`links
      ensures State() == old(State())
      ensures (Traffic(), answer) == old(Traffic()).After(Forward.SendDirect(old(Ends()), id, peer, payload))
    {
      if peer !in links {
        return Forward.Dropped(Forward.NoRoute);
      }
      answer := SealTo(peer, Header(Data, id, peer, Forward.DEFAULT_TTL), payload);
    }

    /** `handle_frame`, on the first 11 bytes of the raw frame and the rest. */
    method HandleFrame(from: NodeId, hdr: seq<byte>, body: S.Frame) returns (answer: Forward.Delivery, ghost next: Option<NodeId>)
      modifies this`outbox, this`links
      ensures State() == old(State())
      ensures (Traffic(), answer) == old(Traffic()).After(Forward.HandleFrame(old(Ends()), id, from, hdr, body, next))
      ensures answer.Forwarded? ==> Parse(hdr).Some? && NextHop(old(State()), Parse(hdr).value.dst, next)
    {
      next := None;
      if |hdr| < HEADER_LEN {
        return Forward.Dropped(Forward.Unopened(S.ShortFrame)), None;
      }
      if from !in links {
        return Forward.Dropped(Forward.Unopened(S.Auth)), None;
      }
      ghost var m := links;
      var (s, msg) := S.OpenStep(links[from], hdr, body);
      links := links[from := s];
      if msg.Err? {
        HandleSessions(id, m, from, hdr, body, None);
        return Forward.Dropped(Forward.Unopened(msg.error)), None;
      }
      answer, next := DispatchOpened(from, hdr, msg.value);
      HandleSessions(id, m, from, hdr, body, next);
    }

    /** The rest of `handle_frame`, once the frame is open. */
    method DispatchOpened(from: NodeId, hdr: seq<byte>, payload: seq<byte>) returns (answer: Forward.Delivery, ghost next: Option<NodeId>)
      modifies this`outbox, this`links
      ensures State() == old(State())
      ensures (Traffic(), answer) == old(Traffic()).After(Forward.Dispatch(old(Ends()), id, from, hdr, payload, next))
      ensures answer.Forwarded? ==> Parse(hdr).Some? && NextHop(old(State()), Parse(hdr).value.dst, next)
    {
      next := None;
      var parsed := Parse(hdr);
      if parsed.None? {
        return Forward.Dropped(Forward.Unopened(S.Auth)), None;
      }
      var h := parsed.value;
      if h.kind == FrameKind.Hello && h.src != from {
        return Forward.Dropped(Forward.SrcSpoof), None;
      }
      if h.dst == id {
        return Forward.Local(payload), None;
      }
      if h.ttl == 0 {
        return Forward.Dropped(Forward.TtlExpired), None;
      }
      answer, next := RouteTo(h.dst, Header(Data, h.src, h.dst, h.ttl - 1), payload);
    }
  }

  /** The keys of a hash map, in an order it does not promise. */
  method HopsInSomeOrder(m: map<NodeId, Metric>) returns (ks: seq<NodeId>)
    ensures forall x :: x in ks <==> x in m
    ensures forall i, j | 0 <= i < j < |ks| :: ks[i] != ks[j]
  {
    ks := [];
    var todo := m.Keys;
    while todo != {}
      invariant todo <= m.Keys
      invariant forall x :: x in ks <==> x in m && x !in todo
      invariant forall i, j | 0 <= i < j < |ks| :: ks[i] != ks[j]
    {
      var h :| h in todo;
      assert h !in ks;
      todo := todo - {h};
      ks := ks + [h];
    }
  }
}
