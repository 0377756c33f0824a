/**
  Next-hop selection with ranked failover, as relations on the router's
  routing state: hash-map order leaves ties between equally good hops open.
 */
module Failover {
  import opened Widths
  import opened Bytes
  import opened Etx
  import opened Routing

  /** Primary and backup next hop of a destination. */
  datatype Ranked = Ranked(primary: Option<NodeId>, backup: Option<NodeId>) {
    predicate Mentions(p: NodeId) { primary == Some(p) || backup == Some(p) }
  }

  const UNRANKED := Ranked(None, None)

  datatype Candidate = Candidate(hop: NodeId, cost: Metric)

  datatype Router = Router(
    id: NodeId,
    table: Table,
    linked: set<NodeId>,
    statics: map<NodeId, NodeId>,
    ranked: map<NodeId, Ranked>,
    candidates: map<NodeId, seq<Candidate>>)

  // ---------------------------------------------------------------- ranking

  function ByHop(cs: seq<Candidate>): (m: map<NodeId, Metric>)
    ensures forall h :: h in m <==> exists i :: 0 <= i < |cs| && cs[i].hop == h
  {
    if cs == [] then map[]
    else
      var c := cs[|cs| - 1];
      ByHop(cs[..|cs| - 1])[c.hop := c.cost]
  }

  /** Ranked candidates, plus the learned path route. */
  function Proposed(r: Router, dst: NodeId): map<NodeId, Metric> {
    var m := if dst in r.candidates then ByHop(r.candidates[dst]) else map[];
    if dst in r.table.routes && r.table.routes[dst].next !in m
    then m[r.table.routes[dst].next := r.table.routes[dst].cost]
    else m
  }

  /** The live direct links that could relay to `dst`. */
  function Relays(r: Router, dst: NodeId): map<NodeId, Metric> {
    map h | h in r.linked && h != dst && h != r.id && r.table.Finite(h) :: r.table.links[h].Cost()
  }

  /** The candidates whose link is not known to be dead. */
  function Live(r: Router, dst: NodeId): map<NodeId, Metric> {
    var m := if Proposed(r, dst) == map[] then Relays(r, dst) else Proposed(r, dst);
    map h | h in m && !r.table.Dead(h) :: m[h]
  }

  /** `p` costs no more than any of `hops`. */
  ghost predicate Cheapest(m: map<NodeId, Metric>, hops: set<NodeId>, p: NodeId)
    requires hops <= m.Keys
  {
    p in hops && forall q | q in hops :: !m[q].Less(m[p])
  }

  /** The primary is a cheapest hop, the backup a cheapest of the others; each is missing only if there is none. */
  ghost predicate IsRanking(m: map<NodeId, Metric>, k: Ranked) {
    match k.primary
    case None => m == map[] && k.backup == None
    case Some(p) =>
      && Cheapest(m, m.Keys, p)
      && match k.backup
         case None => m.Keys == {p}
         case Some(b) => Cheapest(m, m.Keys - {p}, b)
  }

  // ---------------------------------------------------------------- operations

  datatype Op =
    | AddLink(peer: NodeId)
    | Observe(peer: NodeId, weHeard: bool, theyHeard: bool)
    | AddRoute(dst: NodeId, via: NodeId)
    | Learn(dst: NodeId, via: NodeId, advertised: Metric)
    | LearnRanked(dst: NodeId, via: NodeId, advertised: Metric)
    | ForceDead(peer: NodeId)

  /** The ranking of `dst` was recomputed, and nothing else changed. */
  ghost predicate Recomputed(r: Router, dst: NodeId, r': Router) {
    && dst in r'.ranked
    && IsRanking(Live(r, dst), r'.ranked[dst])
    && r' == r.(ranked := r.ranked[dst := r'.ranked[dst]])
  }

  /** The candidates with the cost of `hop` replaced, or appended. */
  function Upserted(cs: seq<Candidate>, hop: NodeId, cost: Metric): (r: seq<Candidate>)
    ensures |cs| <= |r| <= |cs| + 1
  {
    if cs == [] then [Candidate(hop, cost)]
    else if cs[0].hop == hop then [Candidate(hop, cost)] + cs[1..]
    else [cs[0]] + Upserted(cs[1..], hop, cost)
  }

  /** The hot swap: a dead primary gives way to the backup, a dead backup is cleared. */
  function Swapped(k: Ranked, p: NodeId): Ranked {
    if k.primary == Some(p) then Ranked(k.backup, None)
    else if k.backup == Some(p) then Ranked(k.primary, None)
    else k
  }

  predicate Proposes(r: Router, dst: NodeId, p: NodeId) {
    dst in r.candidates && exists i :: 0 <= i < |r.candidates[dst]| && r.candidates[dst][i].hop == p
  }

  /** The destinations `force_dead(p)` recomputes. */
  predicate Affected(r: Router, dst: NodeId, p: NodeId) {
    Proposes(r, dst, p) || (dst in r.ranked && r.ranked[dst].primary == Some(p))
  }

  ghost predicate ForcedDead(r: Router, p: NodeId, r': Router) {
    && r' == r.(table := r.table.Killed(p), ranked := r'.ranked)
    && (forall dst | Affected(r, dst, p) :: dst in r'.ranked && IsRanking(Live(r', dst), r'.ranked[dst]))
    && (forall dst | dst in r'.ranked && !Affected(r, dst, p) ::
         dst in r.ranked && r'.ranked[dst] == Swapped(r.ranked[dst], p))
    && (forall dst | dst in r.ranked :: dst in r'.ranked)
  }

  ghost predicate Step(r: Router, op: Op, r': Router) {
    match op
    case AddLink(p) => r' == r.(linked := r.linked + {p})
    case Observe(p, w, t) => r' == r.(table := r.table.Recorded(p, w, t))
    case AddRoute(dst, via) => r' == r.(statics := r.statics[dst := via])
    case Learn(dst, via, adv) =>
      var cost := r.table.PathCost(via, adv);
      if r.table.Accepts(dst, via, cost)
      then Recomputed(r.(table := r.table.Learned(dst, via, cost)), dst, r')
      else r' == r
    case LearnRanked(dst, via, adv) =>
      var cs := if dst in r.candidates then r.candidates[dst] else [];
      Recomputed(r.(candidates := r.candidates[dst := Upserted(cs, via, r.table.PathCost(via, adv))]), dst, r')
    case ForceDead(p) => ForcedDead(r, p, r')
  }

  // ---------------------------------------------------------------- the next hop

  function RankedFor(r: Router, dst: NodeId): Ranked {
    if dst in r.ranked then r.ranked[dst] else UNRANKED
  }

  predicate UsableDirect(r: Router, dst: NodeId) {
    dst in r.linked && !r.table.Dead(dst)
  }

  /** `next_hop(dst)` may answer `hop`. */
  ghost predicate NextHop(r: Router, dst: NodeId, hop: Option<NodeId>) {
    var k := RankedFor(r, dst);
    if dst == r.id then hop == None
    else if UsableDirect(r, dst) then hop == Some(dst)
    else if dst in r.statics then hop == Some(r.statics[dst])
    else if dst in r.table.routes && r.table.Finite(r.table.routes[dst].next) then hop == Some(r.table.routes[dst].next)
    else if k.primary.Some? && r.table.Finite(k.primary.value) then hop == k.primary
    else if k.primary.Some? && k.backup.Some? && r.table.Finite(k.backup.value) then hop == k.backup
    else IsBest(r.table, hop)
  }

  /** Without a usable direct link or a static route there is no next hop exactly when no neighbour is live. */
  lemma NoHopMeansNoLiveNeighbour(r: Router, dst: NodeId)
    requires dst != r.id && !UsableDirect(r, dst) && dst !in r.statics
    ensures NextHop(r, dst, None) <==> forall q | q in r.table.links :: !r.table.Finite(q)
  {
  }

  /** Apart from a direct link and static routes, only live neighbours are chosen. */
  lemma ChosenHopIsLive(r: Router, dst: NodeId, hop: NodeId)
    requires NextHop(r, dst, Some(hop))
    ensures
      || (hop == dst && UsableDirect(r, dst))
      || (dst in r.statics && r.statics[dst] == hop)
      || r.table.Finite(hop)
  {
  }

  // ---------------------------------------------------------------- after force_dead

  /** `p` is known to be dead, and no ranking mentions it. */
  ghost predicate Avoids(r: Router, p: NodeId) {
    r.table.Dead(p) && forall dst | dst in r.ranked :: !r.ranked[dst].Mentions(p)
  }

  /** A dead hop is in no freshly computed ranking. */
  lemma RankingAvoidsDead(r: Router, dst: NodeId, k: Ranked, p: NodeId)
    requires IsRanking(Live(r, dst), k) && r.table.Dead(p)
    ensures !k.Mentions(p)
  {
    assert p !in Live(r, dst);
  }

  lemma ForceDeadAvoids(r: Router, p: NodeId, r': Router)
    requires ForcedDead(r, p, r') && p in r.table.links
    ensures Avoids(r', p)
  {
    assert r'.table.Dead(p);
    forall dst | dst in r'.ranked
      ensures !r'.ranked[dst].Mentions(p)
    {
      if Affected(r, dst, p) {
        RankingAvoidsDead(r', dst, r'.ranked[dst], p);
      }
    }
  }

  lemma StepAvoids(r: Router, op: Op, r': Router, p: NodeId)
    requires Step(r, op, r') && Avoids(r, p) && !(op.Observe? && op.peer == p)
    ensures Avoids(r', p)
  {
    match op
    case AddLink(_) =>
    case Observe(q, w, t) =>
      assert r'.table.links[p] == r.table.links[p];
    case AddRoute(_, _) =>
    case Learn(dst, via, adv) =>
      if r' != r {
        RankingAvoidsDead(r.(table := r'.table), dst, r'.ranked[dst], p);
      }
    case LearnRanked(dst, via, adv) =>
      RankingAvoidsDead(r.(candidates := r'.candidates), dst, r'.ranked[dst], p);
    case ForceDead(q) =>
      assert r'.table.Dead(p);
      forall dst | dst in r'.ranked
        ensures !r'.ranked[dst].Mentions(p)
      {
        if Affected(r, dst, q) {
          RankingAvoidsDead(r', dst, r'.ranked[dst], p);
        }
      }
  }

  /** `rs` is a run of the router under the operations `ops`. */
  ghost predicate Trace(rs: seq<Router>, ops: seq<Op>) {
    |rs| == |ops| + 1 && forall i | 0 <= i < |ops| :: Step(rs[i], ops[i], rs[i + 1])
  }

  lemma {:induction false} TraceAvoids(rs: seq<Router>, ops: seq<Op>, p: NodeId, i: nat)
    requires Trace(rs, ops) && i < |rs| && Avoids(rs[0], p)
    requires forall k | 0 <= k < |ops| :: !(ops[k].Observe? && ops[k].peer == p)
    ensures Avoids(rs[i], p)
  {
    if i > 0 {
      TraceAvoids(rs, ops, p, i - 1);
      StepAvoids(rs[i - 1], ops[i - 1], rs[i - 1 + 1], p);
    }
  }

  /**
    After `force_dead(p)` on an observed neighbour, and until `p` is observed
    again: no ranking mentions `p`, and `next_hop` answers `p` only for a
    destination with a static route to it.
   */
  lemma DeadPeerIsAvoided(r: Router, p: NodeId, rs: seq<Router>, ops: seq<Op>, i: nat, dst: NodeId)
    requires p in r.table.links
    requires Trace(rs, ops) && i < |rs| && Step(r, Op.ForceDead(p), rs[0])
    requires forall k | 0 <= k < |ops| :: !(ops[k].Observe? && ops[k].peer == p)
    ensures !RankedFor(rs[i], dst).Mentions(p)
    ensures NextHop(rs[i], dst, Some(p)) ==> dst in rs[i].statics && rs[i].statics[dst] == p
  {
    ForceDeadAvoids(r, p, rs[0]);
    TraceAvoids(rs, ops, p, i);
    if NextHop(rs[i], dst, Some(p)) {
      ChosenHopIsLive(rs[i], dst, p);
    }
  }

  /** Right after `force_dead(p)`, a static route aside, `p` is still answered exactly when it is a linked neighbour never observed. */
  lemma ForceDeadNeedsObservation(r: Router, p: NodeId, r': Router, dst: NodeId)
    requires Step(r, Op.ForceDead(p), r') && dst !in r.statics && dst != r.id
    ensures NextHop(r', dst, Some(p)) <==> dst == p && p in r.linked && p !in r.table.links
  {
    if NextHop(r', dst, Some(p)) {
      ChosenHopIsLive(r', dst, p);
    }
  }

  /** A route to the router's own id is learned like any other, unless its next hop is the router itself; `next_hop` never uses it. */
  lemma OwnRouteIsLearned(r: Router, via: NodeId, advertised: Metric, r': Router, hop: Option<NodeId>)
    requires Step(r, Learn(r.id, via, advertised), r') && r.id !in r.table.routes
    ensures if via == r.id then r' == r
      else r.id in r'.table.routes && r'.table.routes[r.id] == PathRoute(via, r.table.PathCost(via, advertised))
    ensures NextHop(r', r.id, hop) <==> hop == None
  {
  }

  // ---------------------------------------------------------------- which hop is chosen

  /** A neighbour linked and not known to be dead is reached directly. */
  lemma LinkIsUsed(r: Router, peer: NodeId, r': Router, hop: Option<NodeId>)
    requires Step(r, AddLink(peer), r') && peer != r.id && !r.table.Dead(peer)
    ensures NextHop(r', peer, hop) <==> hop == Some(peer)
  {
  }

  /** A static route is used where there is no usable direct link, whatever was learned. */
  lemma StaticRouteIsUsed(r: Router, dst: NodeId, via: NodeId, r': Router, hop: Option<NodeId>)
    requires Step(r, AddRoute(dst, via), r') && dst != r.id && !UsableDirect(r, dst)
    ensures NextHop(r', dst, hop) <==> hop == Some(via)
  {
  }

  /** Only learned state decides about this destination. */
  predicate ByLearning(r: Router, dst: NodeId) {
    dst != r.id && !UsableDirect(r, dst) && dst !in r.statics
  }

  /** A route just learned at finite cost is the one used, however cheap other links are. */
  lemma LearnedRouteIsUsed(r: Router, dst: NodeId, via: NodeId, advertised: Metric, r': Router, hop: Option<NodeId>)
    requires Step(r, Learn(dst, via, advertised), r') && ByLearning(r, dst)
    requires r.table.PathCost(via, advertised).Fin? && r.table.Accepts(dst, via, r.table.PathCost(via, advertised))
    ensures NextHop(r', dst, hop) <==> hop == Some(via)
  {
    assert r'.table.Finite(via);
  }

  /** The latest cost each hop offered for `dst` through the ranked list. */
  function Offers(r: Router, dst: NodeId): map<NodeId, Metric> {
    if dst in r.candidates then ByHop(r.candidates[dst]) else map[]
  }

  /** `hop` is among the candidates of `dst` with a live link, and none of those was offered cheaper. */
  ghost predicate CheapestLive(r: Router, dst: NodeId, hop: NodeId) {
    var m := Offers(r, dst);
    hop in m && r.table.Finite(hop) && forall q | q in m && r.table.Finite(q) :: !m[q].Less(m[hop])
  }

  /** Every hop proposed for `dst` was observed at some time. */
  ghost predicate AllObserved(r: Router, dst: NodeId) {
    forall q | q in Offers(r, dst) :: q in r.table.links
  }

  /** The learned route to `dst`, if any, goes through a dead link to one of its candidates. */
  predicate RouteIsDead(r: Router, dst: NodeId) {
    dst in r.table.routes ==> r.table.Dead(r.table.routes[dst].next) && r.table.routes[dst].next in Offers(r, dst)
  }

  lemma ProposesIsOffered(r: Router, dst: NodeId, p: NodeId)
    ensures Proposes(r, dst, p) <==> p in Offers(r, dst)
  {
  }

  /** With only observed candidates and a dead learned route, the live candidates are exactly those with a live link. */
  lemma LiveOffers(r: Router, dst: NodeId)
    requires AllObserved(r, dst) && RouteIsDead(r, dst) && Offers(r, dst) != map[]
    ensures Live(r, dst) == map h | h in Offers(r, dst) && r.table.Finite(h) :: Offers(r, dst)[h]
  {
    assert Proposed(r, dst) == Offers(r, dst);
  }

  /** Once the ranking of `dst` is fresh, the next hop is a cheapest live candidate, as long as there is one. */
  lemma RankingIsUsed(r: Router, dst: NodeId, hop: Option<NodeId>)
    requires ByLearning(r, dst) && AllObserved(r, dst) && RouteIsDead(r, dst)
    requires dst in r.ranked && IsRanking(Live(r, dst), r.ranked[dst])
    requires exists q :: q in Offers(r, dst) && r.table.Finite(q)
    requires NextHop(r, dst, hop)
    ensures hop.Some? && CheapestLive(r, dst, hop.value)
  {
    var q :| q in Offers(r, dst) && r.table.Finite(q);
    LiveOffers(r, dst);
    assert q in Live(r, dst);
    assert r.ranked[dst].primary.Some?;
    var p := r.ranked[dst].primary.value;
    assert Cheapest(Live(r, dst), Live(r, dst).Keys, p);
    assert CheapestLive(r, dst, p) by {
      forall x | x in Offers(r, dst) && r.table.Finite(x)
        ensures !Offers(r, dst)[x].Less(Offers(r, dst)[p])
      {
        assert x in Live(r, dst).Keys;
      }
    }
  }

  /** Some candidate of `dst` other than `p` has a live link. */
  ghost predicate OtherLive(r: Router, dst: NodeId, p: NodeId) {
    exists q :: q in Offers(r, dst) && q != p && r.table.Finite(q)
  }

  /** What `force_dead(p)` leaves as it was, as far as `dst` is concerned. */
  lemma DeathLeaves(r: Router, p: NodeId, r': Router, dst: NodeId)
    requires Step(r, Op.ForceDead(p), r') && ByLearning(r, dst) && AllObserved(r, dst) && p in Offers(r, dst)
    ensures ByLearning(r', dst) && AllObserved(r', dst) && Offers(r', dst) == Offers(r, dst)
    ensures r'.table.routes == r.table.routes && r'.table.Dead(p) && dst in r'.ranked
    ensures forall q | q != p :: (r'.table.Finite(q) <==> r.table.Finite(q)) && (r'.table.Dead(q) <==> r.table.Dead(q))
  {
    ProposesIsOffered(r, dst, p);
    assert Affected(r, dst, p);
  }

  lemma DeathRanks(r: Router, p: NodeId, r': Router, dst: NodeId)
    requires Step(r, Op.ForceDead(p), r') && p in Offers(r, dst)
    ensures dst in r'.ranked && IsRanking(Live(r', dst), r'.ranked[dst])
  {
    ProposesIsOffered(r, dst, p);
    assert Affected(r, dst, p);
  }

  /** When a candidate dies, the next hop moves to a cheapest of the candidates still alive. */
  lemma FailoverIsCheapest(r: Router, p: NodeId, r': Router, dst: NodeId, hop: Option<NodeId>)
    requires Step(r, Op.ForceDead(p), r') && p in Offers(r, dst) && OtherLive(r, dst, p)
    requires ByLearning(r, dst) && AllObserved(r, dst) && RouteIsDead(r', dst)
    requires NextHop(r', dst, hop)
    ensures hop.Some? && hop.value != p && CheapestLive(r', dst, hop.value)
  {
    DeathLeaves(r, p, r', dst);
    DeathRanks(r, p, r', dst);
    var q :| q in Offers(r, dst) && q != p && r.table.Finite(q);
    assert q in Offers(r', dst) && r'.table.Finite(q);
    RankingIsUsed(r', dst, hop);
  }

  /** A learned route in use dies: the next hop is a cheapest of the live candidates. */
  lemma FirstFailover(r0: Router, dst: NodeId, via: NodeId, advertised: Metric, r1: Router, r2: Router, hop: Option<NodeId>)
    requires ByLearning(r0, dst) && AllObserved(r0, dst) && via in Offers(r0, dst) && OtherLive(r0, dst, via)
    requires r0.table.PathCost(via, advertised).Fin? && r0.table.Accepts(dst, via, r0.table.PathCost(via, advertised))
    requires Step(r0, Learn(dst, via, advertised), r1) && Step(r1, Op.ForceDead(via), r2)
    requires NextHop(r2, dst, hop)
    ensures NextHop(r1, dst, Some(via))
    ensures hop.Some? && hop.value != via && CheapestLive(r2, dst, hop.value)
    ensures ByLearning(r2, dst) && AllObserved(r2, dst) && RouteIsDead(r2, dst)
  {
    LearnedRouteIsUsed(r0, dst, via, advertised, r1, Some(via));
    LearnLeaves(r0, dst, via, advertised, r1);
    DeathLeaves(r1, via, r2, dst);
    FailoverIsCheapest(r1, via, r2, dst, hop);
  }

  lemma LearnLeaves(r: Router, dst: NodeId, via: NodeId, advertised: Metric, r': Router)
    requires Step(r, Learn(dst, via, advertised), r') && ByLearning(r, dst) && AllObserved(r, dst)
    requires r.table.Accepts(dst, via, r.table.PathCost(via, advertised))
    ensures ByLearning(r', dst) && AllObserved(r', dst) && Offers(r', dst) == Offers(r, dst)
    ensures r'.table.links == r.table.links && dst in r'.table.routes && r'.table.routes[dst].next == via
    ensures OtherLive(r, dst, via) ==> OtherLive(r', dst, via)
  {
    if OtherLive(r, dst, via) {
      var q :| q in Offers(r, dst) && q != via && r.table.Finite(q);
      assert q in Offers(r', dst) && r'.table.Finite(q);
    }
  }

  /** The hop that took over dies too: the next hop is a cheapest of the rest. */
  lemma SecondFailover(r2: Router, dst: NodeId, hop: NodeId, r3: Router, hop': Option<NodeId>)
    requires ByLearning(r2, dst) && AllObserved(r2, dst) && RouteIsDead(r2, dst)
    requires CheapestLive(r2, dst, hop) && OtherLive(r2, dst, hop)
    requires Step(r2, Op.ForceDead(hop), r3) && NextHop(r3, dst, hop')
    ensures hop'.Some? && hop'.value != hop && CheapestLive(r3, dst, hop'.value)
    ensures !Offers(r2, dst)[hop'.value].Less(Offers(r2, dst)[hop])
  {
    DeathLeaves(r2, hop, r3, dst);
    FailoverIsCheapest(r2, hop, r3, dst, hop');
    assert r2.table.Finite(hop'.value);
  }

  /** A router that has heard 4, 5 and 6 once, both ways, and was offered routes to 9 by each of them. */
  function Example(): Router {
    var l := LinkStats.New(3).Record(true, true);
    Router(1, Table(3, map[4 := l, 5 := l, 6 := l], map[]), {4, 5, 6}, map[], map[],
           map[9 := [Candidate(4, Fin(3.0)), Candidate(5, Fin(4.0)), Candidate(6, Fin(5.0))]])
  }

  /** To it the two failovers apply. */
  lemma FailoverApplies()
    ensures var r := Example();
      && ByLearning(r, 9) && AllObserved(r, 9) && 4 in Offers(r, 9) && OtherLive(r, 9, 4)
      && r.table.PathCost(4, Fin(1.0)).Fin? && r.table.Accepts(9, 4, r.table.PathCost(4, Fin(1.0)))
  {
    var r, cs := Example(), Example().candidates[9];
    var d := DeliveryRatio.New(3);
    assert d == DeliveryRatio(0.5, 0.9) && d.Record(true) == DeliveryRatio(0.5, 0.95);
    var l := LinkStats.New(3).Record(true, true);
    assert l.Cost().Fin?;
    CostRange(l);
    assert cs[0].hop == 4 && cs[1].hop == 5 && cs[2].hop == 6;
    assert 5 in Offers(r, 9) && r.table.Finite(5);
  }

  /** `force_dead` of another peer leaves a destination that does not depend on it with its primary. */
  lemma PrimarySurvives(r: Router, p: NodeId, r': Router, dst: NodeId)
    requires Step(r, Op.ForceDead(p), r') && !Affected(r, dst, p)
    ensures RankedFor(r', dst).primary == RankedFor(r, dst).primary
    ensures RankedFor(r', dst).backup == if RankedFor(r, dst).backup == Some(p) then None else RankedFor(r, dst).backup
  {
  }

  /** A route learned from someone with no ranked offer is ranked, unless two offers cost no more. */
  lemma LearnedIsRanked(r: Router, dst: NodeId, via: NodeId, advertised: Metric, r': Router)
    requires Step(r, Learn(dst, via, advertised), r') && via !in Offers(r, dst)
    requires var c := r.table.PathCost(via, advertised); c.Fin? && r.table.Accepts(dst, via, c)
    ensures var c, k, m := r.table.PathCost(via, advertised), RankedFor(r', dst), Offers(r, dst);
      || k.Mentions(via)
      || (&& k.primary.Some? && k.backup.Some? && k.primary.value in m && k.backup.value in m
          && !c.Less(m[k.primary.value]) && !c.Less(m[k.backup.value]))
  {
    var c, k := r.table.PathCost(via, advertised), r'.ranked[dst];
    var t := r.(table := r.table.Learned(dst, via, c));
    var m := Live(t, dst);
    assert via in Proposed(t, dst) && Proposed(t, dst)[via] == c && !t.table.Dead(via);
    assert via in m.Keys && m[via] == c;
    assert k.primary.Some? && Cheapest(m, m.Keys, k.primary.value);
    if !k.Mentions(via) {
      assert k.backup.Some?;
    }
  }

  // ---------------------------------------------------------------- the ranked list

  ghost predicate Distinct(cs: seq<Candidate>) {
    forall i, j | 0 <= i < j < |cs| :: cs[i].hop != cs[j].hop
  }

  /** Replacing a candidate in place, or appending it, as the search finds it. */
  lemma {:induction false} UpsertAt(cs: seq<Candidate>, hop: NodeId, cost: Metric, i: nat)
    requires i <= |cs| && (forall k | 0 <= k < i :: cs[k].hop != hop) && (i < |cs| ==> cs[i].hop == hop)
    ensures Upserted(cs, hop, cost) == if i < |cs| then cs[i := Candidate(hop, cost)] else cs + [Candidate(hop, cost)]
  {
    if cs != [] && cs[0].hop != hop {
      UpsertAt(cs[1..], hop, cost, i - 1);
      if i < |cs| {
        assert cs[i := Candidate(hop, cost)] == [cs[0]] + cs[1..][i - 1 := Candidate(hop, cost)];
      } else {
        assert cs + [Candidate(hop, cost)] == [cs[0]] + (cs[1..] + [Candidate(hop, cost)]);
      }
    }
  }

  lemma {:induction false} FindHop(cs: seq<Candidate>, hop: NodeId) returns (k: nat)
    ensures k <= |cs| && (forall i | 0 <= i < k :: cs[i].hop != hop) && (k < |cs| ==> cs[k].hop == hop)
  {
    if cs == [] || cs[0].hop == hop {
      k := 0;
    } else {
      k := FindHop(cs[1..], hop);
      k := k + 1;
      assert forall i | 0 <= i < |cs| - 1 :: cs[1..][i] == cs[i + 1];
    }
  }

  lemma {:induction false} ReplacedCosts(cs: seq<Candidate>, k: nat, c: Candidate)
    requires Distinct(cs) && k < |cs| && cs[k].hop == c.hop
    ensures Distinct(cs[k := c]) && ByHop(cs[k := c]) == ByHop(cs)[c.hop := c.cost]
  {
    var n, us := |cs| - 1, cs[k := c];
    if k == n {
      assert us[..n] == cs[..n];
    } else {
      assert us[..n] == cs[..n][k := c] && us[n] == cs[n];
      ReplacedCosts(cs[..n], k, c);
      assert cs[n].hop != c.hop;
    }
  }

  lemma AppendedCosts(cs: seq<Candidate>, c: Candidate)
    requires Distinct(cs) && forall i | 0 <= i < |cs| :: cs[i].hop != c.hop
    ensures Distinct(cs + [c]) && ByHop(cs + [c]) == ByHop(cs)[c.hop := c.cost]
  {
    assert (cs + [c])[..|cs|] == cs;
  }

  /** Updating a candidate replaces the cost of its hop and of no other. */
  lemma UpsertedCosts(cs: seq<Candidate>, hop: NodeId, cost: Metric)
    requires Distinct(cs)
    ensures Distinct(Upserted(cs, hop, cost)) && ByHop(Upserted(cs, hop, cost)) == ByHop(cs)[hop := cost]
  {
    var k := FindHop(cs, hop);
    UpsertAt(cs, hop, cost, k);
    if k < |cs| {
      ReplacedCosts(cs, k, Candidate(hop, cost));
    } else {
      AppendedCosts(cs, Candidate(hop, cost));
    }
  }

  /** What holds in every state of a router that started empty. */
  ghost predicate Kept(r: Router) {
    && (forall dst | dst in r.candidates :: r.candidates[dst] != [] && Distinct(r.candidates[dst]))
    && (forall dst | dst in r.ranked :: dst in r.candidates || dst in r.table.routes)
  }

  /** The ranked list of every destination holds the latest cost each hop offered, and only ranked offers change it. */
  lemma OfferIsLatest(r: Router, op: Op, r': Router, dst: NodeId)
    requires Kept(r) && Step(r, op, r')
    ensures Offers(r', dst) == if op.LearnRanked? && op.dst == dst
      then Offers(r, dst)[op.via := r.table.PathCost(op.via, op.advertised)]
      else Offers(r, dst)
  {
    if op.LearnRanked? && op.dst == dst {
      var cs := if dst in r.candidates then r.candidates[dst] else [];
      UpsertedCosts(cs, op.via, r.table.PathCost(op.via, op.advertised));
    }
  }

  lemma StepKeeps(r: Router, op: Op, r': Router)
    requires Kept(r) && Step(r, op, r')
    ensures Kept(r')
  {
    if op.LearnRanked? {
      var cs := if op.dst in r.candidates then r.candidates[op.dst] else [];
      UpsertedCosts(cs, op.via, r.table.PathCost(op.via, op.advertised));
    } else if op.ForceDead? {
      forall dst | dst in r'.ranked
        ensures dst in r'.candidates || dst in r'.table.routes
      {
        assert Affected(r, dst, op.peer) || dst in r.ranked;
      }
    }
  }

  lemma {:induction false} TraceKeeps(rs: seq<Router>, ops: seq<Op>, i: nat)
    requires Trace(rs, ops) && i < |rs| && Kept(rs[0])
    ensures Kept(rs[i])
  {
    if i > 0 {
      TraceKeeps(rs, ops, i - 1);
      StepKeeps(rs[i - 1], ops[i - 1], rs[i - 1 + 1]);
    }
  }

  /** The destinations whose ranking an operation recomputes. */
  predicate Recomputes(r: Router, op: Op, dst: NodeId) {
    match op
    case Learn(d, via, adv) => d == dst && r.table.Accepts(d, via, r.table.PathCost(via, adv))
    case LearnRanked(d, _, _) => d == dst
    case ForceDead(p) => Affected(r, dst, p)
    case _ => false
  }

  /**
    The fallback of `recompute_ranked_hops` to live direct links is never taken:
    in every run from an empty router, a ranking that is recomputed has a
    candidate or a learned route to go by.
   */
  lemma FallbackUnreachable(rs: seq<Router>, ops: seq<Op>, i: nat, dst: NodeId)
    requires Trace(rs, ops) && i < |ops| && Recomputes(rs[i], ops[i], dst)
    requires rs[0].ranked == map[] && rs[0].candidates == map[]
    ensures Proposed(rs[i + 1], dst) != map[]
  {
    var r, op, r' := rs[i], ops[i], rs[i + 1];
    TraceKeeps(rs, ops, i);
    TraceKeeps(rs, ops, i + 1);
    assert Step(r, op, r');
    if dst in r'.table.routes {
      assert r'.table.routes[dst].next in Proposed(r', dst);
    } else {
      assert dst in r'.candidates;
      var cs := r'.candidates[dst];
      assert cs[0].hop in ByHop(cs);
    }
  }
}
