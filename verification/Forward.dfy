/**
  What one node does with a packet it originates or a frame it receives.  The
  next hop is a parameter: it is whatever the routing tables say at that moment.
 */
module Forward {
  import opened Widths
  import opened Bytes
  import opened Session
  import opened Wire
  import opened SecureNet

  const DEFAULT_TTL: byte := 8

  datatype DropReason = NoRoute | TtlExpired | Unopened(error: MeshError) | SealFailed(error: MeshError) | SrcSpoof
  datatype Delivery = Local(payload: seq<byte>) | Forwarded(next: u32) | Dropped(reason: DropReason)

  /** A frame handed to the transport: the encryption it came from, its header bytes and its body. */
  datatype Out = Out(sent: Sent, hdr: seq<byte>, frame: Frame)

  /** The sessions afterwards, the answer, and the frame sent, if any. */
  datatype Effect = Effect(ends: map<End, State>, answer: Delivery, out: Option<Out>)

  ghost function SealTo(ends: map<End, State>, me: u32, next: u32, h: Header, payload: seq<byte>): Effect {
    var e := End(me, next);
    if e !in ends then Effect(ends, Dropped(NoRoute), None)
    else
      var k, (s, r) := Rekeyed(ends[e]), SealStep(ends[e], Encode(h), payload);
      match r
      case Ok(f) => Effect(ends[e := s], Forwarded(next), Some(Out(Sent(e, k.index, k.tx, f.ct), Encode(h), f)))
      case Err(x) => Effect(ends[e := s], Dropped(SealFailed(x)), None)
  }

  ghost function Route(ends: map<End, State>, me: u32, next: Option<u32>, h: Header, payload: seq<byte>): Effect {
    match next
    case None => Effect(ends, Dropped(NoRoute), None)
    case Some(n) => SealTo(ends, me, n, h, payload)
  }

  ghost function SendIp(ends: map<End, State>, me: u32, dst: u32, payload: seq<byte>, next: Option<u32>): Effect {
    Route(ends, me, next, Header(Data, me, dst, DEFAULT_TTL), payload)
  }

  ghost function SendDirect(ends: map<End, State>, me: u32, peer: u32, payload: seq<byte>): Effect {
    SealTo(ends, me, peer, Header(Data, me, peer, DEFAULT_TTL), payload)
  }

  /** What follows once the frame has been opened: deliver, drop, or forward with one hop less. */
  ghost function Dispatch(ends: map<End, State>, me: u32, from: u32, hdr: seq<byte>, payload: seq<byte>,
                          next: Option<u32>): Effect {
    match Parse(hdr)
    case None => Effect(ends, Dropped(Unopened(Auth)), None)
    case Some(h) =>
      if h.kind == Hello && h.src != from then Effect(ends, Dropped(SrcSpoof), None)
      else if h.dst == me then Effect(ends, Local(payload), None)
      else if h.ttl == 0 then Effect(ends, Dropped(TtlExpired), None)
      else Route(ends, me, next, Header(Data, h.src, h.dst, h.ttl - 1), payload)
  }

  /** `hdr` is the first (at most 11) bytes of the raw frame, `body` the rest. */
  ghost function HandleFrame(ends: map<End, State>, me: u32, from: u32, hdr: seq<byte>, body: Frame,
                             next: Option<u32>): Effect {
    var e := End(me, from);
    if |hdr| < HEADER_LEN then Effect(ends, Dropped(Unopened(ShortFrame)), None)
    else if e !in ends then Effect(ends, Dropped(Unopened(Auth)), None)
    else
      var (s, r) := OpenStep(ends[e], hdr, body);
      match r
      case Err(x) => Effect(ends[e := s], Dropped(Unopened(x)), None)
      case Ok(payload) => Dispatch(ends[e := s], me, from, hdr, payload, next)
  }

  // ---------------------------------------------------------------- why a frame is dropped

  /** A beacon is taken only from the neighbour that it names as its source. */
  lemma HelloNamesNeighbour(ends: map<End, State>, me: u32, from: u32, h: Header, payload: seq<byte>, next: Option<u32>)
    requires h.kind == Hello
    ensures var fx := Dispatch(ends, me, from, Encode(h), payload, next);
      (fx == Effect(ends, Dropped(SrcSpoof), None) <==> h.src != from)
      && (h.src == from && h.dst == me ==> fx == Effect(ends, Local(payload), None))
  {
    ParseEncode(h, []);
    assert Encode(h) + [] == Encode(h);
    if h.src == from && h.dst != me && h.ttl > 0 && next.Some? {
      var r := SealTo(ends, me, next.value, Header(Data, h.src, h.dst, h.ttl - 1), payload);
      assert r.answer != Dropped(SrcSpoof);
    }
  }

  /** What arrives too short, over an unknown link or without authentication is dropped for that reason, and changes nothing. */
  lemma UnopenedReasons(ends: map<End, State>, me: u32, from: u32, hdr: seq<byte>, body: Frame, next: Option<u32>)
    ensures var fx, e := HandleFrame(ends, me, from, hdr, body, next), End(me, from);
      && (|hdr| < 11 ==> fx == Effect(ends, Dropped(Unopened(ShortFrame)), None))
      && (|hdr| >= 11 && e !in ends ==> fx == Effect(ends, Dropped(Unopened(Auth)), None))
      && (|hdr| >= 11 && e in ends && OpenStep(ends[e], hdr, body).1.Err? ==>
           fx == Effect(ends, Dropped(Unopened(OpenStep(ends[e], hdr, body).1.error)), None))
  {
    var e := End(me, from);
    if e in ends {
      assert ends[e := ends[e]] == ends;
    }
  }

  // ---------------------------------------------------------------- locality

  /** The two session maps agree on the ends held by node `me`. */
  ghost predicate Agree(a: map<End, State>, b: map<End, State>, me: u32) {
    forall e: End | e.me == me :: (e in a <==> e in b) && (e in a ==> a[e] == b[e])
  }

  /** On `a` the same was answered and sent as on `b`, the ends of `me` changed alike, and no others changed. */
  ghost predicate SameEffect(a: map<End, State>, fa: Effect, fb: Effect, me: u32) {
    && fa.answer == fb.answer && fa.out == fb.out
    && Agree(fa.ends, fb.ends, me)
    && forall e: End | e.me != me :: (e in fa.ends <==> e in a) && (e in a ==> fa.ends[e] == a[e])
  }

  lemma RouteLocal(a: map<End, State>, b: map<End, State>, me: u32, next: Option<u32>, h: Header, payload: seq<byte>)
    requires Agree(a, b, me)
    ensures SameEffect(a, Route(a, me, next, h, payload), Route(b, me, next, h, payload), me)
  {
    if next.Some? {
      assert End(me, next.value) in a <==> End(me, next.value) in b;
    }
  }

  lemma DispatchLocal(a: map<End, State>, b: map<End, State>, me: u32, from: u32, hdr: seq<byte>, payload: seq<byte>,
                      next: Option<u32>)
    requires Agree(a, b, me)
    ensures SameEffect(a, Dispatch(a, me, from, hdr, payload, next), Dispatch(b, me, from, hdr, payload, next), me)
  {
    if Parse(hdr).Some? {
      var h := Parse(hdr).value;
      if h.ttl > 0 {
        RouteLocal(a, b, me, next, Header(Data, h.src, h.dst, h.ttl - 1), payload);
      }
    }
  }

  /** A node's reaction depends on its own sessions only, and touches no others: a router object computes its part of the mesh's step. */
  lemma HandleLocal(a: map<End, State>, b: map<End, State>, me: u32, from: u32, hdr: seq<byte>, body: Frame, next: Option<u32>)
    requires Agree(a, b, me)
    ensures SameEffect(a, HandleFrame(a, me, from, hdr, body, next), HandleFrame(b, me, from, hdr, body, next), me)
  {
    var e := End(me, from);
    assert e in a <==> e in b;
    if |hdr| >= HEADER_LEN && e in a {
      var (s, r) := OpenStep(a[e], hdr, body);
      if r.Ok? {
        DispatchLocal(a[e := s], b[e := s], me, from, hdr, r.value, next);
      }
    }
  }
}
