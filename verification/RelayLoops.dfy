/** When forwarders can loop: for any peers a coordinator may name to the forwarders of a
    chain, changing from lease to lease or not, exactly which datagrams are sent without
    bound. */
module RelayLoops {
  import opened Base
  import opened Relay
  import opened Forwarder
  import opened RelayNetwork
  import opened RelayEscort

  /** For one chain, the pairs of peers each forwarder's leases may name, one at a time. */
  type Peering = map<SocketAddr, set<Peers>>

  ghost predicate Joins(peers: Peers, a: SocketAddr, b: SocketAddr) {
    peers == Peers(a, b) || peers == Peers(b, a)
  }

  /** Under some lease `node` sends on to `b` what comes from `a`. */
  ghost predicate Links(peering: Peering, a: SocketAddr, node: SocketAddr, b: SocketAddr) {
    node in peering && exists peers :: peers in peering[node] && Joins(peers, a, b)
  }

  // ------------------------------------------------------- walks and rings

  /** Addresses a datagram may pass one after another: its sender, forwarders, where it is due. */
  ghost predicate Walk(peering: Peering, w: seq<SocketAddr>) {
    |w| >= 2 && forall t :: 1 <= t <= |w| - 2 ==> LinksAt(peering, w, t)
  }

  ghost predicate LinksAt(peering: Peering, w: seq<SocketAddr>, t: int)
    requires 1 <= t <= |w| - 2
  {
    Links(peering, w[t - 1], w[t], w[t + 1])
  }

  /** The walk goes the same hop at `b` as it went at `a`. */
  ghost predicate Repeats(w: seq<SocketAddr>, a: int, b: int) {
    1 <= a < b <= |w| - 1 && w[a] == w[b] && w[a - 1] == w[b - 1]
  }

  /** From the hop `src` to `dst` some walk comes to a hop it has gone before. */
  ghost predicate Returns(peering: Peering, src: SocketAddr, dst: SocketAddr) {
    exists w, a, b :: Walk(peering, w) && w[0] == src && w[1] == dst && Repeats(w, a, b)
  }

  function Next(i: nat, n: nat): nat {
    if i + 1 == n then 0 else i + 1
  }

  function Prev(i: nat, n: nat): nat
    requires i < n
  {
    if i == 0 then n - 1 else i - 1
  }

  ghost predicate Linked(peering: Peering, ring: seq<SocketAddr>, i: nat)
    requires i < |ring|
  {
    Links(peering, ring[Prev(i, |ring|)], ring[i], ring[Next(i, |ring|)])
  }

  /** Forwarders in a circle, each with a pair of peers that is the one before and the one after. */
  ghost predicate Rings(peering: Peering, ring: seq<SocketAddr>) {
    ring != [] && forall i :: 0 <= i < |ring| ==> Linked(peering, ring, i)
  }

  /** The hop from `src` to `dst` is a hop of some ring. */
  ghost predicate OnRing(peering: Peering, src: SocketAddr, dst: SocketAddr) {
    exists ring :: Rings(peering, ring) && ring[|ring| - 1] == src && ring[0] == dst
  }

  /** What lies between two goings of the same hop is a ring. */
  lemma RepeatIsRing(peering: Peering, w: seq<SocketAddr>, a: int, b: int)
    requires Walk(peering, w) && Repeats(w, a, b)
    ensures OnRing(peering, w[a - 1], w[a])
  {
    var ring := w[a..b];
    forall i | 0 <= i < |ring|
      ensures Linked(peering, ring, i)
    {
      assert LinksAt(peering, w, a + i);
    }
    assert Rings(peering, ring);
  }

  /** A hop of a ring is gone again once round it. */
  lemma RingReturns(peering: Peering, src: SocketAddr, dst: SocketAddr)
    requires OnRing(peering, src, dst)
    ensures Returns(peering, src, dst)
  {
    var ring :| Rings(peering, ring) && ring[|ring| - 1] == src && ring[0] == dst;
    var w := [src] + ring + [dst];
    forall t | 1 <= t <= |w| - 2
      ensures LinksAt(peering, w, t)
    {
      assert Linked(peering, ring, t - 1);
    }
    assert Repeats(w, 1, |ring| + 1);
  }

  // ----------------------------------------------------- runs under a peering

  ghost predicate RowAgrees(peering: Peering, node: SocketAddr, row: RoutingEntry) {
    node in peering && Peers(row.allowedSrc, row.allowedDst) in peering[node]
  }

  ghost predicate TablesAgree(peering: Peering, chain: ChainId, nodes: map<SocketAddr, Table>) {
    forall node :: node in nodes && chain in nodes[node] ==> RowAgrees(peering, node, nodes[node][chain])
  }

  ghost predicate LeaseAgrees(peering: Peering, chain: ChainId, step: Step) {
    step.Lease? && step.lease.chainId == chain ==> RowAgrees(peering, step.node, EntryFrom(step.lease))
  }

  /** A run from before any traffic in which every lease of the chain, the first or a later
      one, names a pair of peers its forwarder may have; other chains' rows are anything. */
  ghost predicate Governed(peering: Peering, chain: ChainId, start: Net, steps: seq<Step>) {
    && start.flight == [] && start.inbox == [] && start.emitted == [] && start.origins == []
    && TablesAgree(peering, chain, start.nodes)
    && forall i :: 0 <= i < |steps| ==> LeaseAgrees(peering, chain, steps[i])
  }

  /** In no such run does this datagram, injected or copied, cause more sends than that. */
  ghost predicate Bounded(peering: Peering, chain: ChainId, dg: Datagram, bound: nat) {
    forall start, steps, id: nat ::
      && Governed(peering, chain, start, steps)
      && id < |Exec(start, steps).origins| && Exec(start, steps).origins[id] == dg
      ==> Sends(Exec(start, steps).emitted, id) <= bound
  }

  // ------------------------------------------------------ where a packet went

  /** The addresses a packet has passed: its first sender, its forwarders, its destination. */
  function Stops(pk: Packet): seq<SocketAddr> {
    [pk.origin.src] + seq(|pk.trail|, t requires 0 <= t < |pk.trail| => pk.trail[t].node) + [pk.dg.dst]
  }

  /** A packet of the chain has gone a walk, and is on its last hop. */
  ghost predicate Travelled(peering: Peering, chain: ChainId, pk: Packet) {
    && pk.dg.bytes == pk.origin.bytes
    && (PeekChainId(pk.dg.bytes) == Some(chain) ==>
          var w := Stops(pk);
          Walk(peering, w) && w[1] == pk.origin.dst && w[|w| - 2] == pk.dg.src)
  }

  lemma WalkGoesOn(peering: Peering, w: seq<SocketAddr>, next: SocketAddr)
    requires Walk(peering, w) && Links(peering, w[|w| - 2], w[|w| - 1], next)
    ensures Walk(peering, w + [next])
  {
    forall t | 1 <= t <= |w| - 1
      ensures LinksAt(peering, w + [next], t)
    {
      if t <= |w| - 2 {
        assert LinksAt(peering, w, t);
      }
    }
  }

  lemma ForwardTravels(peering: Peering, chain: ChainId, net: Net, pk: Packet)
    requires TablesAgree(peering, chain, net.nodes) && Travelled(peering, chain, pk)
    requires pk.dg.dst in net.nodes && Decided(net, pk).Forward?
    ensures Travelled(peering, chain, Forwarded(pk, Decided(net, pk)).sent)
  {
    if PeekChainId(pk.dg.bytes) == Some(chain) {
      var d, row := Decided(net, pk), net.nodes[pk.dg.dst][chain];
      assert RowAgrees(peering, pk.dg.dst, row);
      assert Joins(Peers(row.allowedSrc, row.allowedDst), pk.dg.src, d.target);
      WalkGoesOn(peering, Stops(pk), d.target);
      assert Stops(Forwarded(pk, d).sent) == Stops(pk) + [d.target];
    }
  }

  lemma CopiesTravel(peering: Peering, chain: ChainId)
    ensures Hereditary(pk => Travelled(peering, chain, pk))
  {
    forall pk, id | Travelled(peering, chain, pk)
      ensures Travelled(peering, chain, pk.(id := id))
    {
      assert Stops(pk.(id := id)) == Stops(pk);
    }
  }

  ghost predicate AllTravelled(peering: Peering, chain: ChainId, net: Net) {
    && TablesAgree(peering, chain, net.nodes)
    && Everywhere(net, pk => Travelled(peering, chain, pk), (e: Emission) => Travelled(peering, chain, e.sent))
  }

  lemma StepTravels(peering: Peering, chain: ChainId, net: Net, step: Step)
    requires AllTravelled(peering, chain, net) && LeaseAgrees(peering, chain, step)
    ensures AllTravelled(peering, chain, Apply(net, step))
  {
    CopiesTravel(peering, chain);
    forall pk | Travelled(peering, chain, pk) && pk.dg.dst in net.nodes && Decided(net, pk).Forward?
      ensures Travelled(peering, chain, Forwarded(pk, Decided(net, pk)).sent)
    {
      ForwardTravels(peering, chain, net, pk);
    }
    StepKeepsEverywhere(net, step, pk => Travelled(peering, chain, pk),
                        (e: Emission) => Travelled(peering, chain, e.sent));
  }

  lemma {:induction false} RunTravels(peering: Peering, chain: ChainId, net: Net, steps: seq<Step>)
    requires AllTravelled(peering, chain, net)
    requires forall i :: 0 <= i < |steps| ==> LeaseAgrees(peering, chain, steps[i])
    ensures AllTravelled(peering, chain, Exec(net, steps))
    decreases |steps|
  {
    if steps == [] {
    } else {
      StepTravels(peering, chain, net, steps[0]);
      RunTravels(peering, chain, Apply(net, steps[0]), steps[1..]);
    }
  }

  // -------------------------------------------- a long enough walk repeats a hop

  datatype Hop = Hop(src: SocketAddr, dst: SocketAddr)

  /** One forwarder with one of its pairs of peers. */
  datatype Post = Post(node: SocketAddr, peers: Peers)

  function Posts(peering: Peering): set<Post> {
    set node, peers | node in peering.Keys && peers in peering[node] :: Post(node, peers)
  }

  /** The hops some forwarder would take a packet from. */
  function TakenHops(peering: Peering): set<Hop> {
    (set post | post in Posts(peering) :: Hop(post.peers.src, post.node))
    + (set post | post in Posts(peering) :: Hop(post.peers.dst, post.node))
  }

  lemma {:induction false} ImageSize(posts: set<Post>, f: Post -> Hop)
    ensures |set post | post in posts :: f(post)| <= |posts|
    decreases |posts|
  {
    if posts == {} {
      assert (set post | post in posts :: f(post)) == {};
    } else {
      var some :| some in posts;
      var rest := posts - {some};
      ImageSize(rest, f);
      assert (set post | post in posts :: f(post)) == (set post | post in rest :: f(post)) + {f(some)};
    }
  }

  lemma FewHops(peering: Peering)
    ensures |TakenHops(peering)| <= 2 * |Posts(peering)|
  {
    var from := (post: Post) => Hop(post.peers.src, post.node);
    var back := (post: Post) => Hop(post.peers.dst, post.node);
    ImageSize(Posts(peering), from);
    ImageSize(Posts(peering), back);
    assert (set post | post in Posts(peering) :: Hop(post.peers.src, post.node))
        == set post | post in Posts(peering) :: from(post);
    assert (set post | post in Posts(peering) :: Hop(post.peers.dst, post.node))
        == set post | post in Posts(peering) :: back(post);
  }

  lemma {:induction false} Pigeonhole(hops: seq<Hop>, holes: set<Hop>) returns (a: nat, b: nat)
    requires |hops| > |holes| && forall t :: 0 <= t < |hops| ==> hops[t] in holes
    ensures a < b < |hops| && hops[a] == hops[b]
    decreases |hops|
  {
    if b' :| 1 <= b' < |hops| && hops[b'] == hops[0] {
      a, b := 0, b';
    } else {
      a, b := Pigeonhole(hops[1..], holes - {hops[0]});
      a, b := a + 1, b + 1;
    }
  }

  lemma LinkIsTaken(peering: Peering, a: SocketAddr, node: SocketAddr, b: SocketAddr)
    requires Links(peering, a, node, b)
    ensures Hop(a, node) in TakenHops(peering)
  {
    var peers :| peers in peering[node] && Joins(peers, a, b);
    assert Post(node, peers) in Posts(peering);
  }

  /** Two passages for every pair of peers, and a walk has gone some hop twice. */
  lemma LongWalkRepeats(peering: Peering, w: seq<SocketAddr>) returns (a: int, b: int)
    requires Walk(peering, w) && |w| - 2 > 2 * |Posts(peering)|
    ensures Repeats(w, a, b)
  {
    var hops := seq(|w| - 2, t requires 0 <= t < |w| - 2 => Hop(w[t], w[t + 1]));
    forall t | 0 <= t < |hops|
      ensures hops[t] in TakenHops(peering)
    {
      assert LinksAt(peering, w, t + 1);
      LinkIsTaken(peering, w[t], w[t + 1], w[t + 2]);
    }
    FewHops(peering);
    a, b := Pigeonhole(hops, TakenHops(peering));
    a, b := a + 1, b + 1;
  }

  lemma UnreturningIsBounded(peering: Peering, chain: ChainId, dg: Datagram)
    requires PeekChainId(dg.bytes) == Some(chain) && !Returns(peering, dg.src, dg.dst)
    ensures Bounded(peering, chain, dg, 2 * |Posts(peering)|)
  {
    forall start, steps, id: nat | Governed(peering, chain, start, steps)
                                   && id < |Exec(start, steps).origins| && Exec(start, steps).origins[id] == dg
      ensures Sends(Exec(start, steps).emitted, id) <= 2 * |Posts(peering)|
    {
      if Sends(Exec(start, steps).emitted, id) > 2 * |Posts(peering)| {
        RunTravels(peering, chain, start, steps);
        var e := SendsShowInTrail(start, steps, id);
        assert Travelled(peering, chain, e.sent);
        var a, b := LongWalkRepeats(peering, Stops(e.sent));
      }
    }
  }

  // ------------------------------------------------- a repeated hop never stops

  /** The walk carried on from its second going of a hop as it went on from the first, over
      and over. */
  function Pumped(w: seq<SocketAddr>, a: int, b: int, t: nat): SocketAddr
    requires Repeats(w, a, b)
    decreases t
  {
    if t <= b then w[t] else Pumped(w, a, b, t - (b - a))
  }

  lemma {:induction false} PumpedLinks(peering: Peering, w: seq<SocketAddr>, a: int, b: int, t: nat)
    requires Walk(peering, w) && Repeats(w, a, b) && t >= 1
    ensures Links(peering, Pumped(w, a, b, t - 1), Pumped(w, a, b, t), Pumped(w, a, b, t + 1))
    decreases t
  {
    if t < b {
      assert LinksAt(peering, w, t);
    } else {
      PumpedLinks(peering, w, a, b, t - (b - a));
    }
  }

  lemma PumpedWalk(peering: Peering, w: seq<SocketAddr>, a: int, b: int, n: nat) returns (v: seq<SocketAddr>)
    requires Walk(peering, w) && Repeats(w, a, b) && n >= 2
    ensures |v| == n && Walk(peering, v) && v[0] == w[0] && v[1] == w[1]
  {
    v := seq(n, t requires 0 <= t < n => Pumped(w, a, b, t));
    forall t | 1 <= t <= n - 2
      ensures LinksAt(peering, v, t)
    {
      PumpedLinks(peering, w, a, b, t);
    }
  }

  /** A pair of peers by which a forwarder makes this forward. */
  ghost function Pick(peering: Peering, a: SocketAddr, node: SocketAddr, b: SocketAddr): (peers: Peers)
    requires Links(peering, a, node, b)
    ensures peers in peering[node] && Joins(peers, a, b)
  {
    var peers :| peers in peering[node] && Joins(peers, a, b);
    peers
  }

  ghost function LegAt(peering: Peering, v: seq<SocketAddr>, i: nat): (leg: Leg)
    requires Walk(peering, v) && i < |v| - 2
    ensures leg.Works() && leg.prev == v[i] && leg.node == v[i + 1] && leg.next == v[i + 2]
    ensures leg.node in peering && leg.peers in peering[leg.node]
  {
    assert LinksAt(peering, v, i + 1);
    Leg(v[i], v[i + 1], v[i + 2], Pick(peering, v[i], v[i + 1], v[i + 2]))
  }

  /** Every walk is the way of some datagram in some governed run. */
  lemma WalkRun(peering: Peering, chain: ChainId, v: seq<SocketAddr>, dg: Datagram)
    returns (start: Net, steps: seq<Step>)
    requires Walk(peering, v) && |v| >= 3
    requires PeekChainId(dg.bytes) == Some(chain) && dg.src == v[0] && dg.dst == v[1]
    ensures Governed(peering, chain, start, steps)
    ensures var net := Exec(start, steps);
            |net.origins| > 0 && net.origins[0] == dg && Sends(net.emitted, 0) == |v| - 2
  {
    var legs := seq(|v| - 2, i requires 0 <= i < |v| - 2 => LegAt(peering, v, i));
    forall i | 0 <= i < |legs|
      ensures legs[i] == LegAt(peering, v, i)
    {
    }
    assert Itinerary(legs);
    start := Blank(legs);
    steps := EscortRun(chain, legs, dg);
    forall k | 0 <= k < |steps|
      ensures LeaseAgrees(peering, chain, steps[k])
    {
      if steps[k].Lease? {
        var i :| 0 <= i < |legs| && steps[k] == Lease(legs[i].node, legs[i].Terms(chain));
        assert legs[i] == LegAt(peering, v, i);
      }
    }
  }

  lemma ReturningIsUnbounded(peering: Peering, chain: ChainId, dg: Datagram, bound: nat)
    requires PeekChainId(dg.bytes) == Some(chain) && Returns(peering, dg.src, dg.dst)
    ensures !Bounded(peering, chain, dg, bound)
  {
    var w, a, b :| Walk(peering, w) && w[0] == dg.src && w[1] == dg.dst && Repeats(w, a, b);
    var v := PumpedWalk(peering, w, a, b, bound + 3);
    var start, steps := WalkRun(peering, chain, v, dg);
    assert Sends(Exec(start, steps).emitted, 0) == bound + 1;
  }

  // ------------------------------------------------------------- main results

  /** A datagram's exact condition, over all runs and all leases the peering allows: if from
      the hop it is injected on some walk comes back to a hop it has gone, no number bounds
      its sends; if none does, twice the number of pairs of peers bounds them. */
  lemma BoundedIff(peering: Peering, chain: ChainId, dg: Datagram)
    requires PeekChainId(dg.bytes) == Some(chain)
    ensures Bounded(peering, chain, dg, 2 * |Posts(peering)|) <==> !Returns(peering, dg.src, dg.dst)
    ensures (exists bound :: Bounded(peering, chain, dg, bound)) <==> !Returns(peering, dg.src, dg.dst)
  {
    if Returns(peering, dg.src, dg.dst) {
      forall bound: nat
        ensures !Bounded(peering, chain, dg, bound)
      {
        ReturningIsUnbounded(peering, chain, dg, bound);
      }
    } else {
      UnreturningIsBounded(peering, chain, dg);
    }
  }

  /** No datagram of the chain, whatever its addresses, is sent more often than that. */
  ghost predicate LoopFree(peering: Peering, chain: ChainId, bound: nat) {
    forall dg: Datagram :: PeekChainId(dg.bytes) == Some(chain) ==> Bounded(peering, chain, dg, bound)
  }

  /** The exact boundary, in terms of what the coordinator knows before it issues a lease:
      a chain is free of loops if and only if the peers its forwarders may be given form
      no ring. */
  lemma LoopFreeIff(peering: Peering, chain: ChainId)
    ensures (exists bound :: LoopFree(peering, chain, bound)) <==> !exists ring :: Rings(peering, ring)
    ensures LoopFree(peering, chain, 2 * |Posts(peering)|) <==> !exists ring :: Rings(peering, ring)
  {
    if ring :| Rings(peering, ring) {
      var dg := Datagram(ring[|ring| - 1], ring[0], chain);
      assert chain[..RELAY_FRAME_PREFIX_LEN] == chain;
      assert OnRing(peering, dg.src, dg.dst);
      RingReturns(peering, dg.src, dg.dst);
      BoundedIff(peering, chain, dg);
    } else {
      forall dg: Datagram | PeekChainId(dg.bytes) == Some(chain)
        ensures Bounded(peering, chain, dg, 2 * |Posts(peering)|)
      {
        NoRingNoReturn(peering, dg.src, dg.dst);
        BoundedIff(peering, chain, dg);
      }
      assert LoopFree(peering, chain, 2 * |Posts(peering)|);
    }
  }

  lemma NoRingNoReturn(peering: Peering, src: SocketAddr, dst: SocketAddr)
    requires !exists ring :: Rings(peering, ring)
    ensures !Returns(peering, src, dst)
  {
    forall w, a, b | Walk(peering, w) && Repeats(w, a, b)
      ensures false
    {
      RepeatIsRing(peering, w, a, b);
    }
  }

  // --------------------------------------------------- peers that never change

  /** Every forwarder is given the same pair of peers in all its leases. */
  ghost predicate Settled(peering: Peering) {
    forall node, p, q :: node in peering && p in peering[node] && q in peering[node] ==> p == q
  }

  /** With settled peers the hop before is determined by the hop after: a walk that repeats
      a hop repeats its first. */
  lemma {:induction false} RepeatsFromTheStart(peering: Peering, w: seq<SocketAddr>, a: int, b: int)
    requires Settled(peering) && Walk(peering, w) && Repeats(w, a, b)
    ensures Repeats(w, 1, b - a + 1)
    decreases a
  {
    if a == 1 {
    } else {
      assert LinksAt(peering, w, a - 1) && LinksAt(peering, w, b - 1);
      RepeatsFromTheStart(peering, w, a - 1, b - 1);
    }
  }

  /** Then a datagram's sends are unbounded if and only if it is injected on a hop of a ring. */
  lemma SettledBoundedIff(peering: Peering, chain: ChainId, dg: Datagram)
    requires Settled(peering) && PeekChainId(dg.bytes) == Some(chain)
    ensures Bounded(peering, chain, dg, 2 * |Posts(peering)|) <==> !OnRing(peering, dg.src, dg.dst)
    ensures (exists bound :: Bounded(peering, chain, dg, bound)) <==> !OnRing(peering, dg.src, dg.dst)
  {
    BoundedIff(peering, chain, dg);
    if OnRing(peering, dg.src, dg.dst) {
      RingReturns(peering, dg.src, dg.dst);
    } else if Returns(peering, dg.src, dg.dst) {
      var w, a, b :| Walk(peering, w) && w[0] == dg.src && w[1] == dg.dst && Repeats(w, a, b);
      RepeatsFromTheStart(peering, w, a, b);
      RepeatIsRing(peering, w, 1, b - a + 1);
    }
  }

  /** Every forwarder of the ring holds a row in force that joins its two neighbours there. */
  ghost predicate RingInForce(chain: ChainId, net: Net, ring: seq<SocketAddr>) {
    forall i :: 0 <= i < |ring| ==> PostInForce(chain, net, ring, i)
  }

  ghost predicate PostInForce(chain: ChainId, net: Net, ring: seq<SocketAddr>, i: nat)
    requires i < |ring|
  {
    && ring[i] in net.nodes && chain in net.nodes[ring[i]]
    && var row := net.nodes[ring[i]][chain];
       && Joins(Peers(row.allowedSrc, row.allowedDst), ring[Prev(i, |ring|)], ring[Next(i, |ring|)])
       && net.now <= row.leaseExpiresAt
  }

  /** Last in flight is a datagram of the chain, on the hop to the ring's forwarder `i`. */
  ghost predicate Circling(chain: ChainId, ring: seq<SocketAddr>, net: Net, i: nat)
    requires i < |ring|
  {
    |net.flight| > 0
    && var dg := net.flight[|net.flight| - 1].dg;
       PeekChainId(dg.bytes) == Some(chain) && dg.src == ring[Prev(i, |ring|)] && dg.dst == ring[i]
  }

  lemma RoundOneHop(chain: ChainId, ring: seq<SocketAddr>, net: Net, i: nat, more: nat) returns (next: Net)
    requires i < |ring| && RingInForce(chain, net, ring) && Circling(chain, ring, net, i)
    ensures RingInForce(chain, next, ring) && Circling(chain, ring, next, Next(i, |ring|))
    ensures var id := net.flight[|net.flight| - 1].id;
            next.flight[|next.flight| - 1].id == id && Sends(next.emitted, id) == Sends(net.emitted, id) + 1
    ensures Exec(net, Deliveries(net, more + 1)) == Exec(next, Deliveries(next, more))
  {
    assert PostInForce(chain, net, ring, i);
    var step := Deliver(|net.flight| - 1, true);
    next := Apply(net, step);
    var e := next.emitted[|net.emitted|];
    assert next.emitted == net.emitted + [e] && e.sent.id == net.flight[|net.flight| - 1].id;
    SendsSnoc(net.emitted, e);
    var steps := Deliveries(net, more + 1);
    assert steps[0] == step && steps[1..] == Deliveries(next, more);
    forall j | 0 <= j < |ring|
      ensures PostInForce(chain, next, ring, j)
    {
      assert PostInForce(chain, net, ring, j);
    }
  }

  /** Rows in force along a ring send a datagram round it as often as the network delivers it. */
  lemma {:induction false} RingForwardsForever(chain: ChainId, ring: seq<SocketAddr>, net: Net, i: nat, count: nat)
    requires i < |ring| && RingInForce(chain, net, ring) && Circling(chain, ring, net, i)
    ensures var id := net.flight[|net.flight| - 1].id;
            Sends(Exec(net, Deliveries(net, count)).emitted, id) == Sends(net.emitted, id) + count
    decreases count
  {
    if count == 0 {
      assert Deliveries(net, count) == [];
    } else {
      var next := RoundOneHop(chain, ring, net, i, count - 1);
      RingForwardsForever(chain, ring, next, Next(i, |ring|), count - 1);
    }
  }

  // ------------------------------------------------------------------- paths

  /** The peers a path gives its forwarders. */
  ghost predicate PeeringOf(peering: Peering, path: Path) {
    forall node, peers :: node in peering && peers in peering[node] ==>
                            exists i :: Between(path, i, node, peers.src, peers.dst)
  }

  /** A path of distinct addresses forms no ring, so no rows taken from it loop. */
  lemma DistinctPathHasNoRing(peering: Peering, path: Path, ring: seq<SocketAddr>)
    requires WellFormed(path) && PeeringOf(peering, path)
    ensures !Rings(peering, ring)
  {
    if Rings(peering, ring) {
      assert Linked(peering, ring, 0);
      var peers := Pick(peering, ring[Prev(0, |ring|)], ring[0], ring[Next(0, |ring|)]);
      var p :| Between(path, p, ring[0], peers.src, peers.dst);
      RingClimbs(peering, path, ring, 0, p);
    }
  }

  /** Whatever is on the ring, the next hop of the path is on it too: there is no last. */
  lemma {:induction false} RingClimbs(peering: Peering, path: Path, ring: seq<SocketAddr>, i: nat, p: int)
    requires WellFormed(path) && PeeringOf(peering, path) && Rings(peering, ring)
    requires i < |ring| && 1 <= p <= |path| - 1 && ring[i] == path[p]
    ensures false
    decreases |path| - p
  {
    assert Linked(peering, ring, i);
    var peers := Pick(peering, ring[Prev(i, |ring|)], ring[i], ring[Next(i, |ring|)]);
    var q :| Between(path, q, ring[i], peers.src, peers.dst);
    assert q == p;
    var k := if ring[Next(i, |ring|)] == path[p + 1] then Next(i, |ring|) else Prev(i, |ring|);
    RingClimbs(peering, path, ring, k, p + 1);
  }
}
