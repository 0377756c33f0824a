/** The neighbour table with its learned path routes. */
module Routing {
  import opened Etx
  import opened Widths
  import opened Bytes

  type NodeId = u32

  datatype PathRoute = PathRoute(next: NodeId, cost: Metric)

  /** The contents of a neighbour table. */
  datatype Table = Table(window: nat, links: map<NodeId, LinkStats>, routes: map<NodeId, PathRoute>) {

    /** The live cost of the link to a neighbour, if it was ever observed. */
    function LinkCost(p: NodeId): Option<Metric> {
      if p in links then Some(links[p].Cost()) else None
    }

    predicate Finite(p: NodeId) { p in links && links[p].Cost().Fin? }
    predicate Dead(p: NodeId) { p in links && links[p].Cost().Inf? }

    function Recorded(p: NodeId, weHeard: bool, theyHeard: bool): Table {
      var l := if p in links then links[p] else LinkStats.New(window);
      this.(links := links[p := l.Record(weHeard, theyHeard)])
    }

    function Killed(p: NodeId): Table {
      if p in links then this.(links := links[p := links[p].Kill()]) else this
    }

    /** The first route is always feasible, later ones only when finite and strictly better. */
    predicate IsFeasible(dst: NodeId, cost: Metric) {
      dst in routes ==> cost.Less(routes[dst].cost)
    }

    predicate Accepts(dst: NodeId, next: NodeId, cost: Metric) {
      dst != next && IsFeasible(dst, cost)
    }

    function Learned(dst: NodeId, next: NodeId, cost: Metric): Table {
      if Accepts(dst, next, cost) then this.(routes := routes[dst := PathRoute(next, cost)]) else this
    }

    /** Link cost plus advertised cost; infinite beyond a million. */
    function PathCost(next: NodeId, advertised: Metric): Metric {
      match LinkCost(next)
      case None => Inf
      case Some(l) =>
        if l.Inf? || advertised.Inf? || l.value + advertised.value > 1000000.0 then Inf
        else Fin(l.value + advertised.value)
    }

    predicate Sound() {
      forall p | p in links :: links[p].Sound()
    }
  }

  class EtxTable {
    const window: nat
    var links: map<NodeId, LinkStats>
    var routes: map<NodeId, PathRoute>

    function Contents(): Table
      reads this
    {
      Table(window, links, routes)
    }

    constructor (w: nat)
      ensures Contents() == Table(if w < 1 then 1 else w, map[], map[])
    {
      window := if w < 1 then 1 else w;
      links, routes := map[], map[];
    }

    method Record(p: NodeId, weHeard: bool, theyHeard: bool)
      modifies this
      ensures Contents() == old(Contents()).Recorded(p, weHeard, theyHeard)
    {
      if p !in links {
        links := links[p := LinkStats.New(window)];
      }
      var l := links[p];
      l := l.(reverse := l.reverse.Record(weHeard));
      l := l.(forward := l.forward.Record(theyHeard));
      links := links[p := l];
    }

    method ForceDead(p: NodeId)
      modifies this
      ensures Contents() == old(Contents()).Killed(p)
    {
      if p in links {
        links := links[p := links[p].Kill()];
      }
    }

    method LearnRoute(dst: NodeId, next: NodeId, cost: Metric) returns (learned: bool)
      modifies this
      ensures learned == old(Contents()).Accepts(dst, next, cost)
      ensures Contents() == old(Contents()).Learned(dst, next, cost)
    {
      if dst == next {
        return false;
      }
      if !Contents().IsFeasible(dst, cost) {
        return false;
      }
      routes := routes[dst := PathRoute(next, cost)];
      learned := true;
    }

    /** A live neighbour of least cost; none exactly when no neighbour is live. */
    method BestNextHop() returns (best: Option<NodeId>)
      ensures IsBest(Contents(), best)
    {
      best := None;
      var todo := links.Keys;
      while todo != {}
        invariant todo <= links.Keys
        invariant best.Some? ==> Contents().Finite(best.value)
        invariant forall q | q in links.Keys - todo && links[q].Cost().Fin? ::
          best.Some? && links[best.value].Cost().value <= links[q].Cost().value
      {
        var p :| p in todo;
        todo := todo - {p};
        var c := links[p].Cost();
        if c.Fin? && (best.None? || c.value < links[best.value].Cost().value) {
          best := Some(p);
        }
      }
    }
  }

  ghost predicate IsBest(t: Table, best: Option<NodeId>) {
    match best
    case None => forall q | q in t.links :: !t.Finite(q)
    case Some(p) => t.Finite(p) && forall q | t.Finite(q) :: t.links[p].Cost().value <= t.links[q].Cost().value
  }

  // ---------------------------------------------------------------- tables and histories

  /** An observation of a neighbour, as the table records it. */
  datatype Seen = Seen(peer: NodeId, what: Observation)

  function Noted(t: Table, s: Seen): Table {
    match s.what
    case Hello(w, h) => t.Recorded(s.peer, w, h)
    case ForceDead => t.Killed(s.peer)
  }

  function NotedAll(window: nat, ss: seq<Seen>): Table {
    if ss == [] then Table(window, map[], map[]) else Noted(NotedAll(window, ss[..|ss| - 1]), ss[|ss| - 1])
  }

  /** What was seen of one neighbour. */
  function HistoryOf(ss: seq<Seen>, p: NodeId): seq<Observation> {
    if ss == [] then []
    else HistoryOf(ss[..|ss| - 1], p) + if ss[|ss| - 1].peer == p then [ss[|ss| - 1].what] else []
  }

  /** Each entry of the table is the link after its own neighbour's history, whatever happens to the others. */
  lemma {:induction false} EntryIsHistory(window: nat, ss: seq<Seen>, p: NodeId)
    ensures var t := NotedAll(window, ss);
      t.window == window && After(window, HistoryOf(ss, p)) == if p in t.links then Some(t.links[p]) else None
  {
    if ss != [] {
      var n := |ss| - 1;
      EntryIsHistory(window, ss[..n], p);
      if ss[n].peer == p {
        var h := HistoryOf(ss[..n], p);
        assert (h + [ss[n].what])[..|h|] == h;
      } else {
        assert HistoryOf(ss, p) == HistoryOf(ss[..n], p);
      }
    }
  }

  // ---------------------------------------------------------------- which route is held

  /** A route offered to `learn_route`. */
  datatype Offer = Offer(dst: NodeId, next: NodeId, cost: Metric)

  function Taken(t: Table, os: seq<Offer>): Table {
    if os == [] then t
    else
      var o := os[|os| - 1];
      Taken(t, os[..|os| - 1]).Learned(o.dst, o.next, o.cost)
  }

  /** The offer is for `dst`, by someone other than `dst`. */
  predicate Concerns(o: Offer, dst: NodeId) { o.dst == dst && o.next != dst }

  /** No offer for `dst` is cheaper than the k-th, and all before it cost more. */
  ghost predicate FirstCheapest(os: seq<Offer>, dst: NodeId, k: nat) {
    && k < |os| && Concerns(os[k], dst)
    && (forall i | 0 <= i < |os| && Concerns(os[i], dst) :: !os[i].cost.Less(os[k].cost))
    && (forall i | 0 <= i < k && Concerns(os[i], dst) :: os[k].cost.Less(os[i].cost))
  }

  /** After the offers, `dst` has the route of the first cheapest one, or none if there was no offer for it. */
  ghost predicate HoldsCheapest(t: Table, os: seq<Offer>, dst: NodeId) {
    if dst in t.routes
    then exists k: nat :: FirstCheapest(os, dst, k) && t.routes[dst] == PathRoute(os[k].next, os[k].cost)
    else forall i | 0 <= i < |os| :: !Concerns(os[i], dst)
  }

  lemma CheapestSnoc(os: seq<Offer>, o: Offer, dst: NodeId, k: nat)
    requires FirstCheapest(os, dst, k)
    ensures if Concerns(o, dst) && o.cost.Less(os[k].cost) then FirstCheapest(os + [o], dst, |os|)
      else FirstCheapest(os + [o], dst, k)
  {
    var all := os + [o];
    assert forall i | 0 <= i < |os| :: all[i] == os[i];
  }

  /** Over any sequence of offers, mixed with offers for other destinations, the first cheapest is held; infinity counts as greatest. */
  lemma {:induction false} CheapestIsHeld(t: Table, os: seq<Offer>, dst: NodeId)
    requires dst !in t.routes
    ensures HoldsCheapest(Taken(t, os), os, dst)
  {
    if os != [] {
      var n := |os| - 1;
      var init, o, s := os[..n], os[n], Taken(t, os[..n]);
      CheapestIsHeld(t, init, dst);
      assert os == init + [o];
      if dst in s.routes {
        var k: nat :| FirstCheapest(init, dst, k) && s.routes[dst] == PathRoute(init[k].next, init[k].cost);
        CheapestSnoc(init, o, dst, k);
        if Concerns(o, dst) && o.cost.Less(init[k].cost) {
          assert FirstCheapest(os, dst, n);
        } else {
          assert FirstCheapest(os, dst, k);
        }
      } else if Concerns(o, dst) {
        assert forall i | 0 <= i < n :: os[i] == init[i];
        assert FirstCheapest(os, dst, n);
      } else {
        assert forall i | 0 <= i < n :: os[i] == init[i];
      }
    }
  }

  /** An offer is taken if and only if it is the first for its destination or strictly cheaper than all before it. */
  lemma OfferTakenIff(t: Table, os: seq<Offer>, o: Offer)
    requires o.dst !in t.routes && o.next != o.dst
    ensures Taken(t, os).Accepts(o.dst, o.next, o.cost)
       <==> forall i | 0 <= i < |os| && Concerns(os[i], o.dst) :: o.cost.Less(os[i].cost)
  {
    CheapestIsHeld(t, os, o.dst);
    var s := Taken(t, os);
    if o.dst in s.routes {
      var k: nat :| FirstCheapest(os, o.dst, k) && s.routes[o.dst] == PathRoute(os[k].next, os[k].cost);
      assert Concerns(os[k], o.dst);
    }
  }

  // ---------------------------------------------------------------- what a path costs

  /** A node that advertises the cost it computed from the advert of its next hop. */
  datatype Relay = Relay(table: Table, next: NodeId)

  /** The cost at the far end of a chain of such nodes, the first next to the destination. */
  function Relayed(rs: seq<Relay>, start: Metric): Metric {
    if rs == [] then start else rs[|rs| - 1].table.PathCost(rs[|rs| - 1].next, Relayed(rs[..|rs| - 1], start))
  }

  function LinkSum(rs: seq<Relay>): real
    requires forall i | 0 <= i < |rs| :: rs[i].table.Finite(rs[i].next)
  {
    if rs == [] then 0.0
    else
      var n := |rs| - 1;
      assert rs[n].table.Finite(rs[n].next);
      LinkSum(rs[..n]) + rs[n].table.links[rs[n].next].Cost().value
  }

  /** A path costs the sum of its links, and is infinite beyond a million. */
  lemma {:induction false} PathIsSum(rs: seq<Relay>, start: real)
    requires (forall i | 0 <= i < |rs| :: rs[i].table.Sound() && rs[i].table.Finite(rs[i].next)) && start <= 1000000.0
    ensures Relayed(rs, Fin(start)) == if start + LinkSum(rs) <= 1000000.0 then Fin(start + LinkSum(rs)) else Inf
  {
    if rs != [] {
      var n := |rs| - 1;
      PathIsSum(rs[..n], start);
      CostRange(rs[n].table.links[rs[n].next]);
    }
  }

  /** One dead or unknown link on the way, or an infinite start, makes the whole path infinite. */
  lemma {:induction false} BrokenPath(rs: seq<Relay>, start: Metric)
    requires start.Inf? || exists i :: 0 <= i < |rs| && !rs[i].table.Finite(rs[i].next)
    ensures Relayed(rs, start) == Inf
  {
    if rs != [] {
      var n := |rs| - 1;
      if rs[n].table.Finite(rs[n].next) {
        assert start.Inf? || exists i :: 0 <= i < n && !rs[..n][i].table.Finite(rs[..n][i].next) by {
          if start.Fin? {
            var i :| 0 <= i < |rs| && !rs[i].table.Finite(rs[i].next);
            assert rs[..n][i] == rs[i];
          }
        }
        BrokenPath(rs[..n], start);
      }
    }
  }
}
