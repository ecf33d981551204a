/** Runs made to order: one datagram taken along a given series of forwards, each made
    possible by a lease issued just before it. They show that bounds are exact. */
module RelayEscort {
  import opened Base
  import opened Relay
  import opened Forwarder
  import opened RelayNetwork

  /** The two peers a forwarder's row for a chain names. */
  datatype Peers = Peers(src: SocketAddr, dst: SocketAddr)

  /** One forward: what came from `prev` goes from `node` on to `next`, by a row with these peers. */
  datatype Leg = Leg(prev: SocketAddr, node: SocketAddr, next: SocketAddr, peers: Peers) {
    function Heading(): Direction {
      if peers.src == prev then Upstream else Downstream
    }

    predicate Works() {
      next == (if peers.src == prev then peers.dst else peers.src)
      && prev in {peers.src, peers.dst}
    }

    function Terms(chain: ChainId): ForwarderLease {
      ForwarderLease(chain, chain, peers.src, peers.dst, 0)
    }
  }

  /** Each leg begins with the hop the one before ends on. */
  ghost predicate Itinerary(legs: seq<Leg>) {
    && (forall i :: 0 <= i < |legs| ==> legs[i].Works())
    && (forall i :: 0 < i < |legs| ==> legs[i].prev == legs[i - 1].node && legs[i].node == legs[i - 1].next)
  }

  function Visits(legs: seq<Leg>): seq<Visit> {
    seq(|legs|, i requires 0 <= i < |legs| => Visit(legs[i].node, legs[i].Heading()))
  }

  function Escort(chain: ChainId, legs: seq<Leg>): seq<Step> {
    if legs == [] then []
    else [Lease(legs[0].node, legs[0].Terms(chain)), Deliver(0, true)] + Escort(chain, legs[1..])
  }

  /** Instant 0, one packet of the chain in flight on the hop to the first leg, and
      every forwarder there is need of. */
  ghost predicate Ready(net: Net, chain: ChainId, legs: seq<Leg>) {
    && |net.flight| == 1 && net.now == 0 && PeekChainId(net.flight[0].dg.bytes) == Some(chain)
    && (forall i :: 0 <= i < |legs| ==> legs[i].node in net.nodes)
    && (legs != [] ==> net.flight[0].dg.src == legs[0].prev && net.flight[0].dg.dst == legs[0].node)
  }

  lemma ExecTwo(net: Net, a: Step, b: Step, rest: seq<Step>)
    ensures Exec(net, [a, b] + rest) == Exec(Apply(Apply(net, a), b), rest)
  {
    var steps := [a, b] + rest;
    assert steps[0] == a && steps[1..][0] == b && steps[1..][1..] == rest;
    assert Exec(net, steps) == Exec(Apply(net, a), steps[1..]);
  }

  /** The lone packet in flight is the last one sent. */
  ghost predicate JustSent(net: Net) {
    |net.flight| == 1 && net.emitted != [] && net.emitted[|net.emitted| - 1].sent == net.flight[0]
  }

  lemma OneLeg(net: Net, chain: ChainId, legs: seq<Leg>) returns (next: Net)
    requires legs != [] && Itinerary(legs) && Ready(net, chain, legs)
    ensures Exec(net, Escort(chain, legs)) == Exec(next, Escort(chain, legs[1..]))
    ensures Ready(next, chain, legs[1..]) && JustSent(next) && next.origins == net.origins
    ensures next.flight[0].trail == net.flight[0].trail + [Visit(legs[0].node, legs[0].Heading())]
    ensures next.flight[0].id == net.flight[0].id
    ensures Sends(next.emitted, net.flight[0].id) == Sends(net.emitted, net.flight[0].id) + 1
  {
    var pk, leg := net.flight[0], legs[0];
    var leased := Apply(net, Lease(leg.node, leg.Terms(chain)));
    assert leased == net.(nodes := net.nodes[leg.node := Inserted(net.nodes[leg.node], leg.Terms(chain))]);
    assert Decided(leased, pk) == Forward(leg.next, leg.Heading());
    next := Apply(leased, Deliver(0, true));
    var e := Forwarded(pk, Decided(leased, pk));
    assert next.flight == [e.sent] && next.emitted == net.emitted + [e];
    SendsSnoc(net.emitted, e);
    ExecTwo(net, Lease(leg.node, leg.Terms(chain)), Deliver(0, true), Escort(chain, legs[1..]));
  }

  /** The escorted packet makes every forward of the itinerary, in order. */
  lemma {:induction false} Escorted(net: Net, chain: ChainId, legs: seq<Leg>)
    requires Itinerary(legs) && Ready(net, chain, legs) && (legs == [] ==> JustSent(net))
    ensures var end, pk := Exec(net, Escort(chain, legs)), net.flight[0];
            && JustSent(end) && end.flight[0].trail == pk.trail + Visits(legs) && end.origins == net.origins
            && Sends(end.emitted, pk.id) == Sends(net.emitted, pk.id) + |legs|
    decreases |legs|
  {
    var trail := net.flight[0].trail;
    if legs == [] {
      assert trail + Visits(legs) == trail;
    } else {
      var visit := Visit(legs[0].node, legs[0].Heading());
      var next := OneLeg(net, chain, legs);
      Escorted(next, chain, legs[1..]);
      assert Visits(legs) == [visit] + Visits(legs[1..]);
      assert trail + Visits(legs) == trail + [visit] + Visits(legs[1..]);
    }
  }

  /** The forwarders of the legs, with no rows yet. */
  function Blank(legs: seq<Leg>): Net {
    Net(map i | 0 <= i < |legs| :: legs[i].node := map[], 0, [], [], [], [])
  }

  lemma {:induction false} EscortIssues(chain: ChainId, legs: seq<Leg>, k: nat)
    requires k < |Escort(chain, legs)| && Escort(chain, legs)[k].Lease?
    ensures exists i :: 0 <= i < |legs| && Escort(chain, legs)[k] == Lease(legs[i].node, legs[i].Terms(chain))
    decreases |legs|
  {
    if k < 2 {
    } else {
      assert Escort(chain, legs)[k] == Escort(chain, legs[1..])[k - 2];
      EscortIssues(chain, legs[1..], k - 2);
      var i :| 0 <= i < |legs[1..]|
               && Escort(chain, legs[1..])[k - 2] == Lease(legs[1..][i].node, legs[1..][i].Terms(chain));
      assert legs[1..][i] == legs[i + 1];
    }
  }

  /** For every itinerary there is a run, from forwarders without rows, in which nothing
      but its leases is issued and one datagram is sent once for each of its legs. */
  lemma EscortRun(chain: ChainId, legs: seq<Leg>, dg: Datagram) returns (steps: seq<Step>)
    requires legs != [] && Itinerary(legs) && PeekChainId(dg.bytes) == Some(chain)
    requires dg.src == legs[0].prev && dg.dst == legs[0].node
    ensures Initial(Blank(legs))
    ensures forall k :: 0 <= k < |steps| && steps[k].Lease? ==>
                          exists i :: 0 <= i < |legs| && steps[k] == Lease(legs[i].node, legs[i].Terms(chain))
    ensures var end := Exec(Blank(legs), steps);
            && |end.origins| > 0 && end.origins[0] == dg && Sends(end.emitted, 0) == |legs|
            && end.emitted != [] && end.emitted[|end.emitted| - 1].sent.trail == Visits(legs)
  {
    var ready := Blank(legs).(flight := [Packet(dg, 0, dg, [])], origins := [dg]);
    assert Apply(Blank(legs), Inject(dg)) == ready;
    var escort := Escort(chain, legs);
    steps := [Inject(dg)] + escort;
    assert steps[0] == Inject(dg) && steps[1..] == escort;
    forall i | 0 <= i < |legs|
      ensures legs[i].node in ready.nodes
    {
    }
    Escorted(ready, chain, legs);
    assert [] + Visits(legs) == Visits(legs);
    forall k | 0 <= k < |steps| && steps[k].Lease?
      ensures exists i :: 0 <= i < |legs| && steps[k] == Lease(legs[i].node, legs[i].Terms(chain))
    {
      EscortIssues(chain, legs, k - 1);
    }
  }
}
