/**
  The ETX link metric: a pair of exponentially weighted delivery ratios per
  neighbour.  Metrics are exact reals, plus infinity for a dead link.
 */
module Etx {
  import opened Bytes
  import opened Reals

  datatype Metric = Fin(value: real) | Inf {
    /** The order `<` of the source's floats. */
    predicate Less(m: Metric) { Fin? && (m.Inf? || value < m.value) }
  }

  const OPTIMISTIC: real := 0.9
  const DEAD_EPS: real := 0.15

  function Clamp(x: real, lo: real, hi: real): real
    requires lo <= hi
  {
    if x < lo then lo else if x > hi then hi else x
  }

  /** `est` moves toward each sample by the fraction `alpha`. */
  datatype DeliveryRatio = DeliveryRatio(alpha: real, est: real) {
    static function New(window: nat): DeliveryRatio {
      var w := if window < 1 then 1 else window;
      DeliveryRatio(Clamp(2.0 / (w as real + 1.0), 0.3, 0.6), OPTIMISTIC)
    }

    function Record(got: bool): DeliveryRatio {
      DeliveryRatio(alpha, alpha * (if got then 1.0 else 0.0) + (1.0 - alpha) * est)
    }

    function Kill(): DeliveryRatio {
      DeliveryRatio(alpha, 0.0)
    }

    predicate Sound() {
      0.3 <= alpha <= 0.6 && 0.0 <= est <= 1.0
    }
  }

  datatype LinkStats = LinkStats(forward: DeliveryRatio, reverse: DeliveryRatio) {
    static function New(window: nat): LinkStats {
      LinkStats(DeliveryRatio.New(window), DeliveryRatio.New(window))
    }

    function Record(weHeard: bool, theyHeard: bool): LinkStats {
      LinkStats(forward.Record(theyHeard), reverse.Record(weHeard))
    }

    function Kill(): LinkStats {
      LinkStats(forward.Kill(), reverse.Kill())
    }

    predicate Sound() {
      forward.Sound() && reverse.Sound()
    }

    function Cost(): Metric {
      if forward.est < DEAD_EPS || reverse.est < DEAD_EPS then Inf
      else
        PositiveProduct(forward.est, reverse.est);
        Fin(1.0 / (forward.est * reverse.est))
    }
  }

  // ---------------------------------------------------------------- histories

  datatype Observation = Hello(weHeard: bool, theyHeard: bool) | ForceDead

  /** A HELLO interval creates the link on first sight; `force_dead` ignores a neighbour never observed. */
  function Observe(window: nat, l: Option<LinkStats>, o: Observation): Option<LinkStats> {
    match o
    case Hello(w, t) => Some((if l.Some? then l.value else LinkStats.New(window)).Record(w, t))
    case ForceDead => if l.Some? then Some(l.value.Kill()) else None
  }

  /** The link to a neighbour after the observations `h`, oldest first, if it was ever met. */
  function After(window: nat, h: seq<Observation>): Option<LinkStats> {
    if h == [] then None else Observe(window, After(window, h[..|h| - 1]), h[|h| - 1])
  }

  /** The link is known and its cost is finite. */
  predicate Alive(l: Option<LinkStats>) { l.Some? && l.value.Cost().Fin? }

  /** The link is known and its cost is infinite. */
  predicate Dead(l: Option<LinkStats>) { l.Some? && l.value.Cost().Inf? }

  lemma RecordValue(r: DeliveryRatio, got: bool)
    ensures r.Record(got).alpha == r.alpha
    ensures r.Record(got).est == r.est - r.alpha * r.est + (if got then r.alpha else 0.0)
  {
    var a, e := r.alpha, r.est;
    assert (1.0 - a) * e == e - a * e;
    if got {
      assert r.Record(got).est == a * 1.0 + (1.0 - a) * e;
    } else {
      assert r.Record(got).est == a * 0.0 + (1.0 - a) * e;
    }
  }

  lemma RecordSound(r: DeliveryRatio, got: bool)
    requires r.Sound()
    ensures r.Record(got).Sound()
  {
    var a, e := r.alpha, r.est;
    RecordValue(r, got);
    NonNegProduct(1.0 - a, e);
    NonNegProduct(1.0 - a, 1.0 - e);
    NonNegProduct(a, e);
    assert (1.0 - a) * (1.0 - e) == 1.0 - a - e + a * e;
    assert (1.0 - a) * e == e - a * e;
  }

  lemma NewSound(window: nat)
    ensures LinkStats.New(window).Sound()
  {
  }

  lemma {:induction false} HistorySound(window: nat, h: seq<Observation>)
    ensures After(window, h).Some? ==> After(window, h).value.Sound()
  {
    if h != [] {
      var before, o := After(window, h[..|h| - 1]), h[|h| - 1];
      HistorySound(window, h[..|h| - 1]);
      if o.Hello? {
        NewSound(window);
        var l := if before.Some? then before.value else LinkStats.New(window);
        RecordSound(l.forward, o.theyHeard);
        RecordSound(l.reverse, o.weHeard);
      }
    }
  }

  /** A neighbour is known exactly when some HELLO interval was recorded for it. */
  lemma {:induction false} MetByHello(window: nat, h: seq<Observation>)
    ensures After(window, h).Some? <==> exists i :: 0 <= i < |h| && h[i].Hello?
  {
    if h != [] {
      var n := |h| - 1;
      MetByHello(window, h[..n]);
      assert forall i | 0 <= i < n :: h[..n][i] == h[i];
    }
  }

  /** A finite link cost lies between 1 and 400/9. */
  lemma CostRange(l: LinkStats)
    requires l.Sound() && l.Cost().Fin?
    ensures 1.0 <= l.Cost().value <= 400.0 / 9.0
  {
    var f, r := l.forward.est, l.reverse.est;
    NonNegProduct(f, 1.0 - r);
    assert f * (1.0 - r) == f - f * r;
    NonNegProduct(f - 0.15, r - 0.15);
    assert (f - 0.15) * (r - 0.15) == f * r - 0.15 * f - 0.15 * r + 0.0225;
    ReciprocalRange(f * r, 1.0 / (f * r));
  }

  lemma ReciprocalRange(p: real, q: real)
    requires 0.0225 <= p <= 1.0 && q == 1.0 / p
    ensures 1.0 <= q <= 400.0 / 9.0
  {
    assert q * p == 1.0;
    assert q > 0.0;
    NonNegProduct(q, 1.0 - p);
    assert q * (1.0 - p) == q - q * p;
    NonNegProduct(q, p - 0.0225);
    assert q * (p - 0.0225) == q * p - 0.0225 * q;
  }

  /** The cost is the reciprocal of the product of both ratios, and infinite exactly when one is below 0.15. */
  lemma CostLaw(l: LinkStats)
    ensures l.Cost().Inf? <==> l.forward.est < 0.15 || l.reverse.est < 0.15
    ensures l.Cost().Fin? ==> l.Cost().value * (l.forward.est * l.reverse.est) == 1.0
  {
    if l.Cost().Fin? {
      PositiveProduct(l.forward.est, l.reverse.est);
    }
  }

  /** A better ratio in either direction, the other unchanged, is a strictly lower cost. */
  lemma CostFallsWithRatio(l: LinkStats, m: LinkStats)
    requires l.Cost().Fin? && m.Cost().Fin?
    requires (l.forward.est < m.forward.est && l.reverse.est == m.reverse.est)
          || (l.forward.est == m.forward.est && l.reverse.est < m.reverse.est)
    ensures m.Cost().Less(l.Cost())
  {
    var p, q := l.forward.est * l.reverse.est, m.forward.est * m.reverse.est;
    CostLaw(l);
    CostLaw(m);
    if l.forward.est < m.forward.est {
      PositiveProduct(m.forward.est - l.forward.est, m.reverse.est);
    } else {
      PositiveProduct(m.forward.est, m.reverse.est - l.reverse.est);
    }
    PositiveProduct(l.forward.est, l.reverse.est);
    ReciprocalFalls(p, q, l.Cost().value, m.Cost().value);
  }

  lemma ReciprocalFalls(p: real, q: real, c: real, d: real)
    requires 0.0 < p < q && c * p == 1.0 && d * q == 1.0
    ensures d < c
  {
    PositiveFactor(d, q);
    PositiveProduct(d, q - p);
    assert (c - d) * p == d * (q - p);
    PositiveFactor(c - d, p);
  }

  lemma PositiveFactor(x: real, p: real)
    requires p > 0.0 && x * p > 0.0
    ensures x > 0.0
  {
    if x <= 0.0 {
      NonNegProduct(-x, p);
    }
  }

  /** Over every history of a known link, estimates stay in [0, 1] and a finite cost in [1, 400/9]. */
  lemma HistoryCostRange(window: nat, h: seq<Observation>)
    requires After(window, h).Some?
    ensures var l := After(window, h).value;
      && 0.0 <= l.forward.est <= 1.0 && 0.0 <= l.reverse.est <= 1.0
      && (l.Cost().Fin? ==> 1.0 <= l.Cost().value <= 400.0 / 9.0)
  {
    HistorySound(window, h);
    if After(window, h).value.Cost().Fin? {
      CostRange(After(window, h).value);
    }
  }

  /** Each window's weight. */
  lemma WeightOf(window: nat)
    ensures DeliveryRatio.New(window).est == 0.9
    ensures var a := DeliveryRatio.New(window).alpha;
      a == if window <= 2 then 0.6 else if window >= 6 then 0.3 else 2.0 / (window as real + 1.0)
  {
    var w := if window < 1 then 1 else window;
    if w >= 6 {
      WideWindow(w as real, 2.0 / (w as real + 1.0));
    } else {
      assert w == 1 || w == 2 || w == 3 || w == 4 || w == 5;
      assert 2.0 / (1 as real + 1.0) == 1.0 && 2.0 / (2 as real + 1.0) > 0.6;
      assert 2.0 / (3 as real + 1.0) == 0.5 && 2.0 / (4 as real + 1.0) == 0.4 && 2.0 / (5 as real + 1.0) == 1.0 / 3.0;
    }
  }

  lemma WideWindow(w: real, a: real)
    requires w >= 6.0 && a == 2.0 / (w + 1.0)
    ensures a < 0.3
  {
    assert a * (w + 1.0) == 2.0;
    assert (0.3 - a) * (w + 1.0) == 0.3 * (w + 1.0) - 2.0;
    PositiveFactor(0.3 - a, w + 1.0);
  }

  function RecordAll(r: DeliveryRatio, gots: seq<bool>): DeliveryRatio {
    if gots == [] then r else RecordAll(r, gots[..|gots| - 1]).Record(gots[|gots| - 1])
  }

  function Power(x: real, n: nat): real { if n == 0 then 1.0 else x * Power(x, n - 1) }

  /** The heard intervals, each with the weight of its age. */
  function WeightedBy(weight: nat -> real, gots: seq<bool>): real {
    if gots == [] then 0.0 else (if gots[0] then weight(|gots| - 1) else 0.0) + WeightedBy(weight, gots[1..])
  }

  ghost predicate Additive(scale: real -> real, x: real, y: real) { scale(x + y) == scale(x) + scale(y) }
  ghost predicate Ages(weight: nat -> real, scale: real -> real, n: nat) { weight(n + 1) == scale(weight(n)) }

  /** One interval more: all others age by one. */
  lemma {:induction false} AllAge(weight: nat -> real, scale: real -> real, gots: seq<bool>, got: bool)
    requires (forall x, y :: Additive(scale, x, y)) && (forall n: nat :: Ages(weight, scale, n)) && scale(0.0) == 0.0
    ensures WeightedBy(weight, gots + [got]) == scale(WeightedBy(weight, gots)) + if got then weight(0) else 0.0
  {
    var g := gots + [got];
    if gots == [] {
      assert g[1..] == [];
    } else {
      var rest := gots[1..];
      assert g[1..] == rest + [got];
      AllAge(weight, scale, rest, got);
      assert Ages(weight, scale, |rest|);
      assert Additive(scale, if gots[0] then weight(|rest|) else 0.0, WeightedBy(weight, rest));
    }
  }

  /** The heard intervals, each with the weight k^age. */
  function Weighted(k: real, gots: seq<bool>): real {
    WeightedBy((n: nat) => Power(k, n), gots)
  }

  lemma WeightedSnoc(k: real, gots: seq<bool>, got: bool)
    ensures Weighted(k, gots + [got]) == k * Weighted(k, gots) + if got then 1.0 else 0.0
  {
    var weight, scale := (n: nat) => Power(k, n), (x: real) => k * x;
    forall x, y
      ensures Additive(scale, x, y)
    {
      assert k * (x + y) == k * x + k * y;
    }
    forall n: nat
      ensures Ages(weight, scale, n)
    {
    }
    AllAge(weight, scale, gots, got);
  }

  /** The start and each heard interval, discounted by age. */
  function Closed(r: DeliveryRatio, gots: seq<bool>): real {
    Power(1.0 - r.alpha, |gots|) * r.est + r.alpha * Weighted(1.0 - r.alpha, gots)
  }

  lemma ClosedSnoc(r: DeliveryRatio, gots: seq<bool>, got: bool, s: DeliveryRatio)
    requires s.alpha == r.alpha && s.est == Closed(r, gots)
    ensures s.Record(got).alpha == r.alpha && s.Record(got).est == Closed(r, gots + [got])
  {
    var x, g := if got then 1.0 else 0.0, gots + [got];
    WeightsGrow(1.0 - r.alpha, gots, got, x);
    ClosedStep(r.alpha, 1.0 - r.alpha, Power(1.0 - r.alpha, |gots|), Power(1.0 - r.alpha, |g|), r.est,
               Weighted(1.0 - r.alpha, gots), Weighted(1.0 - r.alpha, g), s.est, x, s.Record(got).est);
  }

  lemma WeightsGrow(k: real, gots: seq<bool>, got: bool, x: real)
    requires x == if got then 1.0 else 0.0
    ensures Power(k, |gots + [got]|) == k * Power(k, |gots|)
    ensures Weighted(k, gots + [got]) == k * Weighted(k, gots) + x
  {
    WeightedSnoc(k, gots, got);
  }

  /** The estimate after any intervals, in closed form. */
  lemma {:induction false} ClosedForm(r: DeliveryRatio, gots: seq<bool>)
    ensures RecordAll(r, gots).alpha == r.alpha && RecordAll(r, gots).est == Closed(r, gots)
  {
    if gots == [] {
      assert Power(1.0 - r.alpha, 0) == 1.0;
    } else {
      var n := |gots| - 1;
      ClosedForm(r, gots[..n]);
      ClosedSnoc(r, gots[..n], gots[n], RecordAll(r, gots[..n]));
      assert gots[..n] + [gots[n]] == gots;
    }
  }

  lemma ClosedStep(a: real, k: real, p: real, p': real, e: real, w: real, w': real, s: real, x: real, s': real)
    requires k == 1.0 - a && p' == k * p && w' == k * w + x
    requires s == p * e + a * w && s' == a * x + (1.0 - a) * s
    ensures s' == p' * e + a * w'
  {
    assert k * s == k * (p * e) + k * (a * w);
    assert k * (p * e) == p' * e;
    assert k * (a * w) == a * (k * w);
    assert a * w' == a * (k * w) + a * x;
  }

  function Theirs(h: seq<Observation>): seq<bool>
    requires forall i | 0 <= i < |h| :: h[i].Hello?
  {
    seq(|h|, i requires 0 <= i < |h| => h[i].theyHeard)
  }

  function Ours(h: seq<Observation>): seq<bool>
    requires forall i | 0 <= i < |h| :: h[i].Hello?
  {
    seq(|h|, i requires 0 <= i < |h| => h[i].weHeard)
  }

  /** After HELLO intervals only, the forward ratio weighs what they heard and the reverse ratio what we heard. */
  lemma {:induction false} EstimatesOf(window: nat, h: seq<Observation>)
    requires h != [] && forall i | 0 <= i < |h| :: h[i].Hello?
    ensures var r := DeliveryRatio.New(window);
      After(window, h) == Some(LinkStats(RecordAll(r, Theirs(h)), RecordAll(r, Ours(h))))
  {
    var n := |h| - 1;
    assert Theirs(h)[..n] == Theirs(h[..n]) && Ours(h)[..n] == Ours(h[..n]);
    if n > 0 {
      EstimatesOf(window, h[..n]);
    }
  }

  lemma MissShrinks(r: DeliveryRatio, bound: real)
    requires r.Sound() && r.est <= bound
    ensures r.Record(false).Sound() && r.Record(false).est <= 0.7 * bound
  {
    RecordSound(r, false);
    RecordValue(r, false);
    NonNegProduct(r.alpha - 0.3, r.est);
    assert (r.alpha - 0.3) * r.est == r.alpha * r.est - 0.3 * r.est;
  }

  function Misses(r: DeliveryRatio, k: nat): DeliveryRatio {
    if k == 0 then r else Misses(r, k - 1).Record(false)
  }

  lemma SixMisses(r: DeliveryRatio)
    requires r.Sound()
    ensures Misses(r, 6).est < DEAD_EPS
  {
    MissShrinks(Misses(r, 0), 1.0);
    MissShrinks(Misses(r, 1), 0.7);
    MissShrinks(Misses(r, 2), 0.49);
    MissShrinks(Misses(r, 3), 0.343);
    MissShrinks(Misses(r, 4), 0.2401);
    MissShrinks(Misses(r, 5), 0.16807);
  }

  ghost predicate LastMissed(h: seq<Observation>, k: nat, reverse: bool) {
    k <= |h| && forall i | |h| - k <= i < |h| :: h[i].Hello? && !(if reverse then h[i].weHeard else h[i].theyHeard)
  }

  /** The link before a HELLO interval is recorded: a new one, if the neighbour is unknown. */
  function Entry(window: nat, h: seq<Observation>): LinkStats {
    if After(window, h).Some? then After(window, h).value else LinkStats.New(window)
  }

  lemma EntrySound(window: nat, h: seq<Observation>)
    ensures Entry(window, h).Sound()
  {
    HistorySound(window, h);
    NewSound(window);
  }

  lemma {:induction false} AfterMisses(window: nat, h: seq<Observation>, k: nat, reverse: bool)
    requires LastMissed(h, k, reverse)
    ensures k > 0 ==> After(window, h).Some?
    ensures var l, m := Entry(window, h), Entry(window, h[..|h| - k]);
      if reverse then l.reverse == Misses(m.reverse, k) else l.forward == Misses(m.forward, k)
  {
    if k == 0 {
      assert h[..|h|] == h;
    } else {
      var n := |h| - 1;
      assert h[..n][..n - (k - 1)] == h[..|h| - k];
      AfterMisses(window, h[..n], k - 1, reverse);
    }
  }

  /** Six consecutive misses in one direction kill the link, whatever came before. */
  lemma SixMissesKill(window: nat, h: seq<Observation>, reverse: bool)
    requires LastMissed(h, 6, reverse)
    ensures Dead(After(window, h))
  {
    AfterMisses(window, h, 6, reverse);
    var m := Entry(window, h[..|h| - 6]);
    EntrySound(window, h[..|h| - 6]);
    SixMisses(if reverse then m.reverse else m.forward);
  }

  lemma HeardLately(r: DeliveryRatio, a: bool, b: bool)
    requires r.Sound() && (a || b)
    ensures r.Record(a).Record(b).est >= DEAD_EPS
  {
    var al, e1 := r.alpha, r.Record(a).est;
    RecordSound(r, a);
    RecordValue(r, a);
    RecordValue(r.Record(a), b);
    NonNegProduct(1.0 - al, r.est);
    assert (1.0 - al) * r.est == r.est - al * r.est;
    NonNegProduct(1.0 - al, e1);
    assert (1.0 - al) * e1 == e1 - al * e1;
    if a {
      NonNegProduct(1.0 - al, e1 - al);
      assert (1.0 - al) * (e1 - al) == e1 - al - al * e1 + al * al;
      NonNegProduct(al - 0.3, 0.7 - al);
      assert (al - 0.3) * (0.7 - al) == al - al * al - 0.21;
    }
  }

  /** A new link survives one interval, heard or not. */
  lemma FirstInterval(window: nat, got: bool)
    ensures DeliveryRatio.New(window).Record(got).est >= DEAD_EPS
  {
    var r := DeliveryRatio.New(window);
    RecordValue(r, got);
    assert r.est - r.alpha * r.est == 0.9 - r.alpha * 0.9;
  }

  /**
    Heard in each direction in one of the last two intervals, with no
    `force_dead` since, the link is alive; and so is one that had a single
    interval.
   */
  lemma HeardInTwoStaysAlive(window: nat, h: seq<Observation>)
    requires h != [] && h[|h| - 1].Hello?
    requires After(window, h[..|h| - 1]).Some? ==>
      && |h| >= 2 && h[|h| - 2].Hello?
      && (h[|h| - 2].weHeard || h[|h| - 1].weHeard)
      && (h[|h| - 2].theyHeard || h[|h| - 1].theyHeard)
    ensures Alive(After(window, h))
  {
    var n := |h|;
    if After(window, h[..n - 1]).None? {
      FirstInterval(window, h[n - 1].theyHeard);
      FirstInterval(window, h[n - 1].weHeard);
    } else {
      assert h[..n - 1][..n - 2] == h[..n - 2];
      EntrySound(window, h[..n - 2]);
      var l := Entry(window, h[..n - 2]);
      HeardLately(l.forward, h[n - 2].theyHeard, h[n - 1].theyHeard);
      HeardLately(l.reverse, h[n - 2].weHeard, h[n - 1].weHeard);
    }
  }

  /** A HELLO after `force_dead`: the link is alive again exactly when both directions were heard, or when it was not known to be killed. */
  lemma OneHelloRevives(window: nat, h: seq<Observation>, weHeard: bool, theyHeard: bool)
    requires |h| >= 2 && h[|h| - 2] == ForceDead && h[|h| - 1] == Hello(weHeard, theyHeard)
    ensures var known := After(window, h[..|h| - 2]).Some?;
      && (known ==> Dead(After(window, h[..|h| - 1])))
      && (Alive(After(window, h)) <==> (weHeard && theyHeard) || !known)
  {
    var n := |h|;
    assert h[..n - 1][..n - 2] == h[..n - 2];
    if After(window, h[..n - 2]).None? {
      FirstInterval(window, theyHeard);
      FirstInterval(window, weHeard);
    } else {
      HistorySound(window, h[..n - 1]);
      var l := After(window, h[..n - 1]).value;
      assert l.forward.est == 0.0 && l.reverse.est == 0.0;
      RecordValue(l.forward, theyHeard);
      RecordValue(l.reverse, weHeard);
    }
  }
}
