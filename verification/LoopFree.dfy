/**
  Loop freedom of learned routes (the idea of the feasibility condition of
  section 3.5.1 of RFC 8966).

  The code that sends adverts is not part of the repository's router, so what
  it does is an assumption here: an advert carries the finite cost of its
  sender's own route at sending time, or comes from one of the `direct`
  neighbours of the destination.  Adverts may be delayed, duplicated and lost;
  links come and go.  Loops are impossible when direct neighbours install no
  learned route, possible when they do, and created by exactly those accepted
  adverts whose sender already routes through the receiver.
 */
module LoopFree {
  import opened Etx
  import opened Routing

  datatype Advert = Advert(sender: NodeId, dst: NodeId, cost: real)

  /** `direct(n, d)`: node `n` has `d` as a direct neighbour. */
  datatype World = World(nodes: map<NodeId, Table>, adverts: set<Advert>, direct: (NodeId, NodeId) -> bool)

  datatype Event =
    | Observe(n: NodeId, peer: NodeId, weHeard: bool, theyHeard: bool)
    | Kill(n: NodeId, peer: NodeId)
    | Advertise(n: NodeId, dst: NodeId)
    | AdvertiseDirect(n: NodeId, dst: NodeId, cost: real)
    | Receive(n: NodeId, advert: Advert)

  ghost predicate Enabled(w: World, ev: Event) {
    && ev.n in w.nodes
    && match ev
       case Advertise(n, d) => d in w.nodes[n].routes && w.nodes[n].routes[d].cost.Fin?
       case AdvertiseDirect(n, d, _) => w.direct(n, d)
       case Receive(n, a) => a in w.adverts
       case _ => true
  }

  /** Direct neighbours of a destination install no learned route to it. */
  ghost predicate Disciplined(direct: (NodeId, NodeId) -> bool, evs: seq<Event>) {
    forall i | 0 <= i < |evs| && evs[i].Receive? :: !direct(evs[i].n, evs[i].advert.dst)
  }

  /** What `learn_route` of the router does with an advert. */
  function Heed(t: Table, a: Advert): Table {
    t.Learned(a.dst, a.sender, t.PathCost(a.sender, Fin(a.cost)))
  }

  ghost function Step(w: World, ev: Event): World
    requires Enabled(w, ev)
  {
    var t := w.nodes[ev.n];
    match ev
    case Observe(n, p, x, y) => w.(nodes := w.nodes[n := t.Recorded(p, x, y)])
    case Kill(n, p) => w.(nodes := w.nodes[n := t.Killed(p)])
    case Advertise(n, d) => w.(adverts := w.adverts + {Advert(n, d, t.routes[d].cost.value)})
    case AdvertiseDirect(n, d, c) => w.(adverts := w.adverts + {Advert(n, d, c)})
    case Receive(n, a) => w.(nodes := w.nodes[n := Heed(t, a)])
  }

  // ---------------------------------------------------------------- the invariant

  /** Node `n` has a route to `d` of finite cost. */
  predicate Routed(w: World, n: NodeId, d: NodeId) {
    n in w.nodes && d in w.nodes[n].routes && w.nodes[n].routes[d].cost.Fin?
  }

  function CostTo(w: World, n: NodeId, d: NodeId): real
    requires Routed(w, n, d)
  {
    w.nodes[n].routes[d].cost.value
  }

  function NextTo(w: World, n: NodeId, d: NodeId): NodeId
    requires Routed(w, n, d)
  {
    w.nodes[n].routes[d].next
  }

  /** Node `m` is a direct neighbour of `d`, or routes to it at a cost of at most `c`. */
  predicate Reaches(w: World, m: NodeId, d: NodeId, c: real) {
    w.direct(m, d) || (Routed(w, m, d) && CostTo(w, m, d) <= c)
  }

  /** The next hop is strictly closer than the node itself. */
  predicate Closer(w: World, n: NodeId, d: NodeId)
    requires Routed(w, n, d)
  {
    var m := NextTo(w, n, d);
    w.direct(m, d) || (Routed(w, m, d) && CostTo(w, m, d) < CostTo(w, n, d))
  }

  ghost predicate Inv(w: World) {
    && (forall n | n in w.nodes :: w.nodes[n].Sound())
    && (forall n, d: NodeId | n in w.nodes && w.direct(n, d) :: d !in w.nodes[n].routes)
    && (forall a | a in w.adverts :: Reaches(w, a.sender, a.dst, a.cost))
    && (forall n, d | Routed(w, n, d) :: Closer(w, n, d))
  }

  ghost predicate Init(w: World) {
    w.adverts == {} && forall n | n in w.nodes :: w.nodes[n].links == map[] && w.nodes[n].routes == map[]
  }

  /** Costs of finite routes only fall. */
  ghost predicate Improves(w: World, w': World) {
    && w'.direct == w.direct
    && forall n, d | Routed(w, n, d) :: Routed(w', n, d) && CostTo(w', n, d) <= CostTo(w, n, d)
  }

  lemma SoundStays(t: Table, p: NodeId, x: bool, y: bool)
    requires t.Sound()
    ensures t.Recorded(p, x, y).Sound() && t.Killed(p).Sound()
  {
    var l := if p in t.links then t.links[p] else LinkStats.New(t.window);
    NewSound(t.window);
    RecordSound(l.forward, y);
    RecordSound(l.reverse, x);
  }

  /** A link costs something, so a learned route is strictly longer than the advert. */
  lemma PathLonger(t: Table, a: Advert)
    requires t.Sound() && t.PathCost(a.sender, Fin(a.cost)).Fin?
    ensures t.PathCost(a.sender, Fin(a.cost)).value > a.cost
  {
    CostRange(t.links[a.sender]);
  }

  /** Changing links, or nothing, at one node keeps the invariant. */
  lemma SameRoutesKeep(w: World, n: NodeId, t: Table)
    requires Inv(w) && n in w.nodes && t.Sound() && t.routes == w.nodes[n].routes
    ensures Inv(w.(nodes := w.nodes[n := t]))
  {
    var w' := w.(nodes := w.nodes[n := t]);
    forall m, d
      ensures Routed(w', m, d) <==> Routed(w, m, d)
      ensures Routed(w, m, d) ==> CostTo(w', m, d) == CostTo(w, m, d) && NextTo(w', m, d) == NextTo(w, m, d)
    {
    }
    forall a | a in w'.adverts
      ensures Reaches(w', a.sender, a.dst, a.cost)
    {
      assert Reaches(w, a.sender, a.dst, a.cost);
    }
    forall m, d | Routed(w', m, d)
      ensures Closer(w', m, d)
    {
      assert Closer(w, m, d);
    }
  }

  /** Accepting an advert keeps the invariant: everybody's next hop is still strictly closer. */
  lemma HeedKeeps(w: World, n: NodeId, a: Advert)
    requires Inv(w) && n in w.nodes && a in w.adverts && !w.direct(n, a.dst)
    ensures Inv(w.(nodes := w.nodes[n := Heed(w.nodes[n], a)]))
  {
    var t, t' := w.nodes[n], Heed(w.nodes[n], a);
    var w' := w.(nodes := w.nodes[n := t']);
    var cost := t.PathCost(a.sender, Fin(a.cost));
    if !t.Accepts(a.dst, a.sender, cost) {
      SameRoutesKeep(w, n, t');
      return;
    }
    assert Improves(w, w');
    assert Reaches(w, a.sender, a.dst, a.cost);
    forall b | b in w'.adverts
      ensures Reaches(w', b.sender, b.dst, b.cost)
    {
      assert Reaches(w, b.sender, b.dst, b.cost);
    }
    forall m, d | Routed(w', m, d)
      ensures Closer(w', m, d)
    {
      if m == n && d == a.dst {
        PathLonger(t, a);
      } else {
        assert Routed(w, m, d) && Closer(w, m, d);
      }
    }
  }

  lemma StepKeeps(w: World, ev: Event)
    requires Inv(w) && Enabled(w, ev) && (ev.Receive? ==> !w.direct(ev.n, ev.advert.dst))
    ensures Inv(Step(w, ev))
  {
    var t := w.nodes[ev.n];
    match ev
    case Observe(n, p, x, y) =>
      SoundStays(t, p, x, y);
      SameRoutesKeep(w, n, t.Recorded(p, x, y));
    case Kill(n, p) =>
      SoundStays(t, p, true, true);
      SameRoutesKeep(w, n, t.Killed(p));
    case Advertise(_, _) => AdvertKeeps(w, Step(w, ev));
    case AdvertiseDirect(_, _, _) => AdvertKeeps(w, Step(w, ev));
    case Receive(n, a) => HeedKeeps(w, n, a);
  }

  lemma AdvertKeeps(w: World, w': World)
    requires Inv(w) && w'.nodes == w.nodes && w'.direct == w.direct
    requires forall a | a in w'.adverts :: a in w.adverts || Reaches(w, a.sender, a.dst, a.cost)
    ensures Inv(w')
  {
    forall n, d | Routed(w', n, d)
      ensures Closer(w', n, d)
    {
      assert Routed(w, n, d) && Closer(w, n, d);
    }
    forall a | a in w'.adverts
      ensures Reaches(w', a.sender, a.dst, a.cost)
    {
      assert Reaches(w, a.sender, a.dst, a.cost);
    }
  }

  // ---------------------------------------------------------------- whole runs

  ghost predicate EnabledRun(w: World, evs: seq<Event>)
    decreases |evs|
  {
    evs == [] || (Enabled(w, evs[0]) && EnabledRun(Step(w, evs[0]), evs[1..]))
  }

  ghost function Run(w: World, evs: seq<Event>): World
    requires EnabledRun(w, evs)
    decreases |evs|
  {
    if evs == [] then w else Run(Step(w, evs[0]), evs[1..])
  }

  lemma {:induction false} RunKeeps(w: World, evs: seq<Event>)
    requires Inv(w) && EnabledRun(w, evs) && Disciplined(w.direct, evs)
    ensures Inv(Run(w, evs))
    decreases |evs|
  {
    if evs != [] {
      StepKeeps(w, evs[0]);
      RunKeeps(Step(w, evs[0]), evs[1..]);
    }
  }

  /** `path` follows finite learned next hops toward `d`. */
  ghost predicate Follows(w: World, path: seq<NodeId>, d: NodeId) {
    forall i | 0 <= i < |path| - 1 :: Routed(w, path[i], d) && NextTo(w, path[i], d) == path[i + 1]
  }

  /** Along such a path the cost falls strictly, and only the last node can be a direct neighbour. */
  lemma {:induction false} CostFalls(w: World, path: seq<NodeId>, d: NodeId, i: nat, j: nat)
    requires Inv(w) && Follows(w, path, d) && i < j < |path|
    ensures Routed(w, path[i], d)
    ensures w.direct(path[j], d) || (Routed(w, path[j], d) && CostTo(w, path[j], d) < CostTo(w, path[i], d))
  {
    assert Routed(w, path[j - 1], d) && NextTo(w, path[j - 1], d) == path[j - 1 + 1];
    assert Closer(w, path[j - 1], d);
    if i < j - 1 {
      CostFalls(w, path, d, i, j - 1);
    }
  }

  /** In every state of a disciplined run, following finite learned next hops never revisits a node. */
  lemma NeverRevisits(w0: World, evs: seq<Event>, path: seq<NodeId>, d: NodeId, i: nat, j: nat)
    requires Init(w0) && EnabledRun(w0, evs) && Disciplined(w0.direct, evs)
    requires Follows(Run(w0, evs), path, d) && i < j < |path|
    ensures path[i] != path[j]
  {
    assert Inv(w0);
    RunKeeps(w0, evs);
    CostFalls(Run(w0, evs), path, d, i, j);
  }

  // ---------------------------------------------------------------- exactly when a loop forms

  /** Following finite learned next hops toward `d` comes back to where it started. */
  ghost predicate Loops(w: World, d: NodeId) {
    exists path :: Cycle(w, path, d)
  }

  ghost predicate Cycle(w: World, path: seq<NodeId>, d: NodeId) {
    |path| >= 2 && path[0] == path[|path| - 1] && Follows(w, path, d)
  }

  /** A path of finite learned next hops toward `d` leads from `m` to `n`. */
  ghost predicate Leads(w: World, m: NodeId, n: NodeId, d: NodeId) {
    exists path :: PathTo(w, path, m, n, d)
  }

  ghost predicate PathTo(w: World, path: seq<NodeId>, m: NodeId, n: NodeId, d: NodeId) {
    |path| >= 1 && path[0] == m && path[|path| - 1] == n && Follows(w, path, d)
  }

  /** Node `n` would take the advert as a finite route. */
  predicate Takes(t: Table, a: Advert) {
    t.Accepts(a.dst, a.sender, t.PathCost(a.sender, Fin(a.cost))) && t.PathCost(a.sender, Fin(a.cost)).Fin?
  }

  /** The event makes a node route through a sender that already routes through the node. */
  ghost predicate Closes(w: World, ev: Event)
    requires Enabled(w, ev)
  {
    ev.Receive? && Takes(w.nodes[ev.n], ev.advert) && Leads(w, ev.advert.sender, ev.n, ev.advert.dst)
  }

  /** Toward `d`, the worlds agree on the finite routes of all nodes but `n`. */
  ghost predicate SameBut(w: World, w': World, n: NodeId, d: NodeId) {
    forall m: NodeId | m != n ::
      (Routed(w, m, d) <==> Routed(w', m, d)) && (Routed(w, m, d) ==> NextTo(w, m, d) == NextTo(w', m, d))
  }

  lemma PathAvoiding(w: World, w': World, n: NodeId, d: NodeId, path: seq<NodeId>)
    requires SameBut(w, w', n, d) && Follows(w, path, d) && forall i | 0 <= i < |path| - 1 :: path[i] != n
    ensures Follows(w', path, d)
  {
    forall i | 0 <= i < |path| - 1
      ensures Routed(w', path[i], d) && NextTo(w', path[i], d) == path[i + 1]
    {
      assert Routed(w, path[i], d) && NextTo(w, path[i], d) == path[i + 1];
    }
  }

  /** The first place of `n` in a path that ends in it. */
  lemma {:induction false} FirstPlace(path: seq<NodeId>, n: NodeId) returns (k: nat)
    requires path != [] && path[|path| - 1] == n
    ensures k < |path| && path[k] == n && forall i | 0 <= i < k :: path[i] != n
  {
    if path[0] == n {
      k := 0;
    } else {
      k := FirstPlace(path[1..], n);
      k := k + 1;
    }
  }

  lemma FollowsSlice(w: World, path: seq<NodeId>, d: NodeId, i: nat, j: nat)
    requires Follows(w, path, d) && i <= j <= |path|
    ensures Follows(w, path[i..j], d)
  {
    var p := path[i..j];
    forall k | 0 <= k < |p| - 1
      ensures Routed(w, p[k], d) && NextTo(w, p[k], d) == p[k + 1]
    {
      assert Routed(w, path[i + k], d) && NextTo(w, path[i + k], d) == path[i + k + 1];
    }
  }

  lemma FollowsJoin(w: World, p: seq<NodeId>, q: seq<NodeId>, d: NodeId)
    requires p != [] && q != [] && Follows(w, p, d) && Follows(w, q, d)
    requires Routed(w, p[|p| - 1], d) && NextTo(w, p[|p| - 1], d) == q[0]
    ensures Follows(w, p + q, d)
  {
    var r := p + q;
    forall k | 0 <= k < |r| - 1
      ensures Routed(w, r[k], d) && NextTo(w, r[k], d) == r[k + 1]
    {
      if k < |p| - 1 {
        assert Routed(w, p[k], d) && NextTo(w, p[k], d) == p[k + 1];
      } else if k >= |p| {
        assert Routed(w, q[k - |p|], d) && NextTo(w, q[k - |p|], d) == q[k - |p| + 1];
      }
    }
  }

  /** Walking a cycle from one of its nodes on. */
  lemma Rotate(w: World, path: seq<NodeId>, d: NodeId, i: nat) returns (r: seq<NodeId>)
    requires Cycle(w, path, d) && i < |path| - 1
    ensures Cycle(w, r, d) && r[0] == path[i]
  {
    FollowsSlice(w, path, d, i, |path|);
    if i == 0 {
      r := path;
    } else {
      FollowsSlice(w, path, d, 1, i + 1);
      r := path[i..] + path[1..i + 1];
      assert Routed(w, path[0], d) && NextTo(w, path[0], d) == path[0 + 1];
      FollowsJoin(w, path[i..|path|], path[1..i + 1], d);
      assert path[i..|path|] == path[i..];
    }
  }

  /** A route of `n` via `m` where `m` leads to `n` is a loop. */
  lemma LeadingCloses(w: World, w': World, n: NodeId, m: NodeId, d: NodeId)
    requires SameBut(w, w', n, d) && Routed(w', n, d) && NextTo(w', n, d) == m && Leads(w, m, n, d)
    ensures Loops(w', d)
  {
    var p :| PathTo(w, p, m, n, d);
    var k := FirstPlace(p, n);
    var q := p[0..k + 1];
    FollowsSlice(w, p, d, 0, k + 1);
    PathAvoiding(w, w', n, d, q);
    FollowsJoin(w', [n], q, d);
    assert Cycle(w', [n] + q, d);
  }

  lemma LoopMeets(w: World, w': World, n: NodeId, d: NodeId, c: seq<NodeId>) returns (i: nat)
    requires SameBut(w, w', n, d) && Cycle(w', c, d) && !Loops(w, d)
    ensures i < |c| - 1 && c[i] == n
  {
    assert !Cycle(w, c, d);
    if forall j | 0 <= j < |c| - 1 :: c[j] != n {
      PathAvoiding(w', w, n, d, c);
      assert false;
    }
    i :| 0 <= i < |c| - 1 && c[i] == n;
  }

  /** A new loop goes through `n`, and so back from its next hop to it. */
  lemma NewLoopLeads(w: World, w': World, n: NodeId, d: NodeId)
    requires SameBut(w, w', n, d) && Loops(w', d) && !Loops(w, d)
    ensures Routed(w', n, d) && Leads(w, NextTo(w', n, d), n, d)
  {
    var c :| Cycle(w', c, d);
    var i := LoopMeets(w, w', n, d, c);
    var r := Rotate(w', c, d, i);
    assert Routed(w', r[0], d) && NextTo(w', r[0], d) == r[0 + 1];
    var k := FirstPlace(r[1..], n);
    var q := r[1..k + 2];
    FollowsSlice(w', r, d, 1, k + 2);
    assert forall j | 0 <= j < |q| - 1 :: q[j] == r[1..][j];
    PathAvoiding(w', w, n, d, q);
    assert PathTo(w, q, NextTo(w', n, d), n, d);
  }

  ghost predicate NoLoops(w: World) {
    forall d :: !Loops(w, d)
  }

  /** One event in a world without loops: a loop forms if and only if the event closes one. */
  lemma LoopIffCloses(w: World, ev: Event)
    requires Enabled(w, ev) && NoLoops(w)
    ensures NoLoops(Step(w, ev)) <==> !Closes(w, ev)
  {
    var w' := Step(w, ev);
    if ev.Receive? && Takes(w.nodes[ev.n], ev.advert) {
      var n, a := ev.n, ev.advert;
      forall d
        ensures SameBut(w, w', n, d)
      {
      }
      assert Routed(w', n, a.dst) && NextTo(w', n, a.dst) == a.sender;
      if Leads(w, a.sender, n, a.dst) {
        LeadingCloses(w, w', n, a.sender, a.dst);
      } else {
        forall d
          ensures !Loops(w', d)
        {
          if Loops(w', d) {
            NewLoopLeads(w, w', n, d);
            if d != a.dst {
              SameLoops(w, w', d);
            }
          }
        }
      }
    } else {
      forall d
        ensures !Loops(w', d)
      {
        SameLoops(w, w', d);
      }
    }
  }

  /** Worlds that agree on all finite routes toward `d` have the same loops. */
  lemma SameLoops(w: World, w': World, d: NodeId)
    requires forall m: NodeId :: (Routed(w, m, d) <==> Routed(w', m, d)) && (Routed(w, m, d) ==> NextTo(w, m, d) == NextTo(w', m, d))
    ensures Loops(w', d) ==> Loops(w, d)
  {
    if c :| Cycle(w', c, d) {
      forall i | 0 <= i < |c| - 1
        ensures Routed(w, c[i], d) && NextTo(w, c[i], d) == c[i + 1]
      {
        assert Routed(w', c[i], d) && NextTo(w', c[i], d) == c[i + 1];
      }
      assert Cycle(w, c, d);
    }
  }

  ghost predicate AlwaysLoopFree(w: World, evs: seq<Event>)
    requires EnabledRun(w, evs)
    decreases |evs|
  {
    NoLoops(w) && (evs == [] || AlwaysLoopFree(Step(w, evs[0]), evs[1..]))
  }

  ghost predicate NeverCloses(w: World, evs: seq<Event>)
    requires EnabledRun(w, evs)
    decreases |evs|
  {
    evs == [] || (!Closes(w, evs[0]) && NeverCloses(Step(w, evs[0]), evs[1..]))
  }

  /** A run stays free of loops if and only if no accepted finite advert comes from a sender that routes through its receiver. */
  lemma {:induction false} LoopFreeIff(w: World, evs: seq<Event>)
    requires EnabledRun(w, evs) && NoLoops(w)
    ensures AlwaysLoopFree(w, evs) <==> NeverCloses(w, evs)
    decreases |evs|
  {
    if evs != [] {
      LoopIffCloses(w, evs[0]);
      if !Closes(w, evs[0]) {
        LoopFreeIff(Step(w, evs[0]), evs[1..]);
      } else if evs[1..] == [] {
        assert !NoLoops(Step(w, evs[0]));
      }
    }
  }

  lemma InvNoLoops(w: World)
    requires Inv(w)
    ensures NoLoops(w)
  {
    forall d
      ensures !Loops(w, d)
    {
      if c :| Cycle(w, c, d) {
        CostFalls(w, c, d, 0, |c| - 1);
      }
    }
  }

  /** A disciplined run meets the condition throughout. */
  lemma {:induction false} DisciplineSuffices(w: World, evs: seq<Event>)
    requires Inv(w) && EnabledRun(w, evs) && Disciplined(w.direct, evs)
    ensures AlwaysLoopFree(w, evs) && NeverCloses(w, evs)
    decreases |evs|
  {
    InvNoLoops(w);
    if evs != [] {
      StepKeeps(w, evs[0]);
      DisciplineSuffices(Step(w, evs[0]), evs[1..]);
    }
    LoopFreeIff(w, evs);
  }

  // ---------------------------------------------------------------- a loop that forms

  /** Nodes 1 and 2 have 3 as a direct neighbour. */
  predicate NextToThree(n: NodeId, d: NodeId) { (n == 1 || n == 2) && d == 3 }

  /** A link met with window 3, after one HELLO heard both ways, and its cost. */
  function HeardOnce(): LinkStats { LinkStats.New(3).Record(true, true) }

  const HEARD_COST: real := 1.0 / 0.9025

  lemma HeardCost()
    ensures HeardOnce().Sound() && HeardOnce().Cost() == Fin(HEARD_COST)
  {
    var r := DeliveryRatio.New(3);
    assert r == DeliveryRatio(0.5, 0.9);
    assert r.Record(true) == DeliveryRatio(0.5, 0.95);
    assert 0.95 * 0.95 == 0.9025;
  }

  /** What node 1 or 2 does: meet the other and 3, and advertise its link to 3. */
  function Announces(n: NodeId, other: NodeId): seq<Event> {
    [Observe(n, other, true, true), Observe(n, 3, true, true), AdvertiseDirect(n, 3, HEARD_COST)]
  }

  lemma RunFirst(w: World, ev: Event, rest: seq<Event>)
    requires Enabled(w, ev) && EnabledRun(Step(w, ev), rest)
    ensures EnabledRun(w, [ev] + rest) && Run(w, [ev] + rest) == Run(Step(w, ev), rest)
  {
    assert ([ev] + rest)[1..] == rest;
  }

  /** The table of a node that met `other` and 3. */
  function Met(other: NodeId): Table {
    Table(3, map[other := HeardOnce(), 3 := HeardOnce()], map[])
  }

  lemma AnnounceRun(w: World, n: NodeId, other: NodeId, rest: seq<Event>)
    requires n in w.nodes && w.nodes[n] == Table(3, map[], map[]) && w.direct(n, 3) && other != 3
    requires EnabledRun(Announced(w, n, other), rest)
    ensures EnabledRun(w, Announces(n, other) + rest) && Run(w, Announces(n, other) + rest) == Run(Announced(w, n, other), rest)
  {
    var e := Announces(n, other);
    var w1 := Step(w, e[0]);
    var w2 := Step(w1, e[1]);
    assert w2.nodes[n].links == map[other := HeardOnce(), 3 := HeardOnce()];
    assert Step(w2, e[2]) == Announced(w, n, other);
    RunFirst(w2, e[2], rest);
    RunFirst(w1, e[1], [e[2]] + rest);
    RunFirst(w, e[0], [e[1]] + ([e[2]] + rest));
    assert e + rest == [e[0]] + ([e[1]] + ([e[2]] + rest));
  }

  function Announced(w: World, n: NodeId, other: NodeId): World {
    World(w.nodes[n := Met(other)], w.adverts + {Advert(n, 3, HEARD_COST)}, w.direct)
  }

  /** The node takes the other's advert. */
  lemma MetHeeds(other: NodeId)
    requires other != 3
    ensures Heed(Met(other), Advert(other, 3, HEARD_COST)) == Met(other).(routes := map[3 := PathRoute(other, Fin(2.0 * HEARD_COST))])
  {
    HeardCost();
  }

  /**
    The feasibility check by itself does not prevent loops.  Two neighbours of
    3 meet, both advertise the true cost of their link to 3, and heed each
    other: now each routes to 3 through the other.
   */
  lemma FeasibilityAloneAllowsLoop()
    ensures var w0 := World(map[1 := Table(3, map[], map[]), 2 := Table(3, map[], map[])], {}, NextToThree);
      var evs := Announces(1, 2) + (Announces(2, 1)
        + [Receive(1, Advert(2, 3, HEARD_COST)), Receive(2, Advert(1, 3, HEARD_COST))]);
      && HeardOnce().Cost() == Fin(HEARD_COST)
      && Init(w0) && EnabledRun(w0, evs) && Cycle(Run(w0, evs), [1, 2, 1], 3)
  {
    HeardCost();
    var w0 := World(map[1 := Table(3, map[], map[]), 2 := Table(3, map[], map[])], {}, NextToThree);
    var a1, a2 := Advert(1, 3, HEARD_COST), Advert(2, 3, HEARD_COST);
    var w1 := Announced(w0, 1, 2);
    var w2 := Announced(w1, 2, 1);
    var w3 := Step(w2, Receive(1, a2));
    var w4 := Step(w3, Receive(2, a1));
    MetHeeds(1);
    MetHeeds(2);
    assert w4.nodes[1].routes == map[3 := PathRoute(2, Fin(2.0 * HEARD_COST))];
    assert w4.nodes[2].routes == map[3 := PathRoute(1, Fin(2.0 * HEARD_COST))];
    RunFirst(w3, Receive(2, a1), []);
    RunFirst(w2, Receive(1, a2), [Receive(2, a1)] + []);
    var last := [Receive(1, a2), Receive(2, a1)];
    assert [Receive(1, a2)] + ([Receive(2, a1)] + []) == last;
    AnnounceRun(w1, 2, 1, last);
    AnnounceRun(w0, 1, 2, Announces(2, 1) + last);
  }
}
