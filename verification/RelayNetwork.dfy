/** The multi-hop data plane as a transition system: forwarders with lease
    tables, datagrams in flight, and a network that may lose, copy, delay and
    reorder them, or carry datagrams nobody asked for. */
module RelayNetwork {
  import opened Base
  import opened Relay
  import opened Forwarder
  import opened ClientSession
  import SweepRefinement

  // ------------------------------------------------------------------- plans

  /** Client, forwarders in order, exit. */
  type Path = seq<SocketAddr>

  /** At least one forwarder, and no address twice. */
  ghost predicate WellFormed(path: Path) {
    |path| >= 3 && forall i, j :: 0 <= i < j < |path| ==> path[i] != path[j]
  }

  /** A packet that hop `m` - 1 has sent up may meet the row of any hop `i` at the address
      of hop `m`, which must not take it for a packet coming down. */
  ghost predicate StaysUp(path: Path, i: int, m: int) {
    1 <= i <= |path| - 2 && 2 <= m <= |path| - 1 && path[m] == path[i] && path[m - 1] == path[i + 1]
    ==> path[m - 1] == path[i - 1]
  }

  /** A packet that hop `m` + 1 has sent down, which that hop does only if its peers differ,
      must not be taken for one going up: the source match is tried first. */
  ghost predicate StaysDown(path: Path, i: int, m: int) {
    1 <= i <= |path| - 2 && 0 <= m <= |path| - 3 && path[m] == path[i] && path[m + 2] != path[m]
    ==> path[m + 1] != path[i - 1]
  }

  /** All that confinement asks of a path. */
  ghost predicate Straight(path: Path) {
    forall i, m :: StaysUp(path, i, m) && StaysDown(path, i, m)
  }

  /** A packet riding up `path` to hop `m` may meet the row of any hop `i` at that
      address: if the row takes the packet, it must send it where the path goes on, and
      must not take it for a packet coming down. */
  ghost predicate GoesUp(path: Path, i: int, m: int) {
    1 <= i <= |path| - 2 && 2 <= m <= |path| - 1 && path[m] == path[i] ==>
      && (path[m - 1] == path[i - 1] ==> m <= |path| - 2 && path[m + 1] == path[i + 1])
      && (path[m - 1] == path[i + 1] ==> path[m - 1] == path[i - 1])
  }

  /** The same on the way down, where the source match tried first must not take the packet. */
  ghost predicate GoesDown(path: Path, i: int, m: int) {
    1 <= i <= |path| - 2 && 0 <= m <= |path| - 3 && path[m] == path[i] ==>
      && path[m + 1] != path[i - 1]
      && (path[m + 1] == path[i + 1] ==> 1 <= m && path[m - 1] == path[i - 1])
  }

  /** All that confinement with at most one send per forwarder asks of a path. */
  ghost predicate OneWay(path: Path) {
    forall i, m :: GoesUp(path, i, m) && GoesDown(path, i, m)
  }

  lemma OneWayIsStraight(path: Path)
    requires OneWay(path)
    ensures Straight(path)
  {
    forall i, m
      ensures StaysUp(path, i, m) && StaysDown(path, i, m)
    {
      assert GoesUp(path, i, m) && GoesDown(path, i, m);
    }
  }

  lemma DistinctIsOneWay(path: Path)
    requires WellFormed(path)
    ensures OneWay(path)
  {
    forall i, m
      ensures GoesUp(path, i, m) && GoesDown(path, i, m)
    {
      if 1 <= i <= |path| - 2 && 0 <= m < |path| && path[m] == path[i] {
        assert i == m;
      }
    }
  }

  /** The path the coordinator assigned to each chain. */
  type Plan = map<ChainId, Path>

  ghost predicate StraightPlan(plan: Plan) {
    forall chain :: chain in plan ==> Straight(plan[chain])
  }

  ghost predicate ValidPlan(plan: Plan) {
    forall chain :: chain in plan ==> OneWay(plan[chain])
  }

  /** Hop `i` of `path` is the forwarder at `node`, between these two neighbours. */
  ghost predicate Between(path: Path, i: int, node: SocketAddr, prev: SocketAddr, next: SocketAddr) {
    1 <= i <= |path| - 2 && path[i] == node && path[i - 1] == prev && path[i + 1] == next
  }

  /** A row authorises exactly the two neighbours of its forwarder on its chain. */
  ghost predicate RowFollows(plan: Plan, node: SocketAddr, chain: ChainId, row: RoutingEntry) {
    chain in plan && exists i :: Between(plan[chain], i, node, row.allowedSrc, row.allowedDst)
  }

  // ------------------------------------------------------------------- state

  datatype Datagram = Datagram(src: SocketAddr, dst: SocketAddr, bytes: Bytes)

  /** One forward of a packet: where, and which way. */
  datatype Visit = Visit(node: SocketAddr, direction: Direction)

  /** A datagram in flight with its history: which injection it descends from,
      and every forward since. */
  datatype Packet = Packet(dg: Datagram, id: nat, origin: Datagram, trail: seq<Visit>)

  datatype Emission = Emission(received: Packet, sent: Packet, direction: Direction)

  datatype Net = Net(
    nodes: map<SocketAddr, Table>,
    now: Time,
    flight: seq<Packet>,
    inbox: seq<Packet>,
    emitted: seq<Emission>,
    origins: seq<Datagram>)

  /** What may happen next. A copy the network makes counts as an injection of its own. */
  datatype Step =
    | Inject(dg: Datagram)
    | Duplicate(index: nat)
    | Lose(index: nat)
    | Deliver(index: nat, accepted: bool)
    | Lease(node: SocketAddr, lease: ForwarderLease)
    | Sweep(node: SocketAddr)
    | Pass(elapsed: nat)

  function Without<T>(s: seq<T>, i: nat): seq<T>
    requires i < |s|
  {
    s[..i] + s[i + 1..]
  }

  function Relayed(pk: Packet, target: SocketAddr, direction: Direction): Packet {
    pk.(dg := Datagram(pk.dg.dst, target, pk.dg.bytes), trail := pk.trail + [Visit(pk.dg.dst, direction)])
  }

  /** What the forwarder a packet has reached decides about it. */
  function Decided(net: Net, pk: Packet): Decision
    requires pk.dg.dst in net.nodes
  {
    Evaluate(net.nodes[pk.dg.dst], pk.dg.bytes, pk.dg.src, net.now)
  }

  function Forwarded(pk: Packet, d: Decision): Emission
    requires d.Forward?
  {
    Emission(pk, Relayed(pk, d.target, d.direction), d.direction)
  }

  function Arrive(net: Net, index: nat, accepted: bool): Net
    requires index < |net.flight|
  {
    var pk, rest := net.flight[index], Without(net.flight, index);
    if pk.dg.dst !in net.nodes then
      net.(flight := rest, inbox := net.inbox + [pk])
    else
      var d := Decided(net, pk);
      if d.Forward? && accepted then
        var e := Forwarded(pk, d);
        net.(flight := rest + [e.sent], emitted := net.emitted + [e])
      else
        net.(flight := rest)
  }

  /** One step; a step that names nothing there does nothing. */
  function Apply(net: Net, step: Step): Net {
    match step
    case Inject(dg) =>
      net.(flight := net.flight + [Packet(dg, |net.origins|, dg, [])], origins := net.origins + [dg])
    case Duplicate(index) =>
      if index >= |net.flight| then net
      else
        var pk := net.flight[index];
        net.(flight := net.flight + [pk.(id := |net.origins|)], origins := net.origins + [pk.origin])
    case Lose(index) =>
      if index >= |net.flight| then net else net.(flight := Without(net.flight, index))
    case Deliver(index, accepted) =>
      if index >= |net.flight| then net else Arrive(net, index, accepted)
    case Lease(node, lease) =>
      if node !in net.nodes then net
      else net.(nodes := net.nodes[node := Inserted(net.nodes[node], lease)])
    case Sweep(node) =>
      if node !in net.nodes then net
      else net.(nodes := net.nodes[node := Retained(net.nodes[node], net.now)])
    case Pass(elapsed) => net.(now := net.now + elapsed)
  }

  function Exec(net: Net, steps: seq<Step>): Net
    decreases |steps|
  {
    if steps == [] then net else Exec(Apply(net, steps[0]), steps[1..])
  }

  /** The coordinator issues only leases that agree with the plan. */
  ghost predicate Issued(plan: Plan, step: Step) {
    step.Lease? ==> RowFollows(plan, step.node, step.lease.chainId, EntryFrom(step.lease))
  }

  ghost predicate Initial(net: Net) {
    && net.flight == [] && net.inbox == [] && net.emitted == [] && net.origins == []
    && forall node :: node in net.nodes ==> net.nodes[node] == map[]
  }

  // ------------------------------------------------- what every packet keeps

  /** `ok` of every packet about, `good` of every emission so far. */
  ghost predicate Everywhere(net: Net, ok: Packet -> bool, good: Emission -> bool) {
    && (forall pk :: pk in net.flight ==> ok(pk))
    && (forall pk :: pk in net.inbox ==> ok(pk))
    && (forall e :: e in net.emitted ==> good(e))
  }

  /** `ok` of whatever is injected, and of a packet's copies as of the packet. */
  ghost predicate Hereditary(ok: Packet -> bool) {
    && (forall dg, id :: ok(Packet(dg, id, dg, [])))
    && (forall pk, id :: ok(pk) ==> ok(pk.(id := id)))
  }

  /** Any such pair of properties that one forward keeps, every step keeps. */
  lemma StepKeepsEverywhere(net: Net, step: Step, ok: Packet -> bool, good: Emission -> bool)
    requires Everywhere(net, ok, good) && Hereditary(ok)
    requires forall pk :: ok(pk) && pk.dg.dst in net.nodes && Decided(net, pk).Forward?
                          ==> ok(Forwarded(pk, Decided(net, pk)).sent) && good(Forwarded(pk, Decided(net, pk)))
    ensures Everywhere(Apply(net, step), ok, good)
  {
    if step.Deliver? && step.index < |net.flight| {
      assert ok(net.flight[step.index]);
    }
  }

  // ------------------------------------------------------- who sent how often

  function Sends(emitted: seq<Emission>, id: nat): nat {
    if emitted == [] then 0
    else
      Sends(emitted[..|emitted| - 1], id) + (if emitted[|emitted| - 1].sent.id == id then 1 else 0)
  }

  lemma SendsSnoc(emitted: seq<Emission>, e: Emission)
    ensures forall id: nat :: Sends(emitted + [e], id) == Sends(emitted, id) + (if e.sent.id == id then 1 else 0)
  {
    assert (emitted + [e])[..|emitted|] == emitted;
  }

  ghost predicate IdsOk(packets: seq<Packet>, origins: seq<Datagram>) {
    forall i :: 0 <= i < |packets| ==> packets[i].id < |origins| && origins[packets[i].id] == packets[i].origin
  }

  ghost predicate OneLivePacketPerId(flight: seq<Packet>) {
    forall i, j :: 0 <= i < j < |flight| ==> flight[i].id != flight[j].id
  }

  /** Some packet sent under this id had as many forwards behind it as the id has sends. */
  ghost predicate Accounted(net: Net, id: nat) {
    id < |net.origins|
    && exists e :: e in net.emitted && e.sent.id == id && e.sent.origin == net.origins[id]
                   && Sends(net.emitted, id) <= |e.sent.trail|
  }

  /** An id has one packet alive at most, and the packet's trail is every send it made:
      so a bound on trails bounds sends. */
  ghost predicate Ledger(net: Net) {
    && IdsOk(net.flight, net.origins)
    && OneLivePacketPerId(net.flight)
    && (forall i :: 0 <= i < |net.flight| ==> Sends(net.emitted, net.flight[i].id) <= |net.flight[i].trail|)
    && (forall id: nat :: Sends(net.emitted, id) > 0 ==> Accounted(net, id))
  }

  lemma RemoveKeepsLedger(net: Net, index: nat)
    requires Ledger(net) && index < |net.flight|
    ensures Ledger(net.(flight := Without(net.flight, index)))
    ensures forall pk :: pk in Without(net.flight, index) ==> pk.id != net.flight[index].id
  {
    var next := net.(flight := Without(net.flight, index));
    forall id: nat | Sends(next.emitted, id) > 0
      ensures Accounted(next, id)
    {
      assert Accounted(net, id);
    }
  }

  lemma EmitKeepsLedger(net: Net, e: Emission)
    requires Ledger(net) && e.sent.id < |net.origins| && net.origins[e.sent.id] == e.sent.origin
    requires forall other :: other in net.flight ==> other.id != e.sent.id
    requires Sends(net.emitted, e.sent.id) < |e.sent.trail|
    ensures Ledger(net.(flight := net.flight + [e.sent], emitted := net.emitted + [e]))
  {
    var next := net.(flight := net.flight + [e.sent], emitted := net.emitted + [e]);
    SendsSnoc(net.emitted, e);
    forall id: nat | Sends(next.emitted, id) > 0
      ensures Accounted(next, id)
    {
      if id == e.sent.id {
        assert e in next.emitted;
      } else {
        assert Accounted(net, id);
        var f :| f in net.emitted && f.sent.id == id && f.sent.origin == net.origins[id]
                 && Sends(net.emitted, id) <= |f.sent.trail|;
        assert f in next.emitted;
      }
    }
  }

  lemma LaunchKeepsLedger(net: Net, pk: Packet)
    requires Ledger(net) && pk.id == |net.origins|
    ensures Ledger(net.(flight := net.flight + [pk], origins := net.origins + [pk.origin]))
  {
    var next := net.(flight := net.flight + [pk], origins := net.origins + [pk.origin]);
    assert Sends(net.emitted, pk.id) == 0;
    forall id: nat | Sends(next.emitted, id) > 0
      ensures Accounted(next, id)
    {
      assert Accounted(net, id);
    }
  }

  lemma ArriveKeepsLedger(net: Net, index: nat, accepted: bool)
    requires Ledger(net) && index < |net.flight|
    ensures Ledger(Arrive(net, index, accepted))
  {
    var pk, base := net.flight[index], net.(flight := Without(net.flight, index));
    RemoveKeepsLedger(net, index);
    if pk.dg.dst !in net.nodes {
      SameLedger(base, Arrive(net, index, accepted));
    } else if Decided(net, pk).Forward? && accepted {
      EmitKeepsLedger(base, Forwarded(pk, Decided(net, pk)));
    }
  }

  /** The ledger speaks of nothing but flight, emissions and injections. */
  lemma SameLedger(net: Net, other: Net)
    requires Ledger(net) && other.flight == net.flight && other.emitted == net.emitted && other.origins == net.origins
    ensures Ledger(other)
  {
    forall id: nat | Sends(other.emitted, id) > 0
      ensures Accounted(other, id)
    {
      assert Accounted(net, id);
    }
  }

  lemma StepKeepsLedger(net: Net, step: Step)
    requires Ledger(net)
    ensures Ledger(Apply(net, step))
  {
    match step {
      case Inject(dg) =>
        LaunchKeepsLedger(net, Packet(dg, |net.origins|, dg, []));
      case Duplicate(index) =>
        if index < |net.flight| {
          LaunchKeepsLedger(net, net.flight[index].(id := |net.origins|));
        }
      case Lose(index) =>
        if index < |net.flight| {
          RemoveKeepsLedger(net, index);
        }
      case Deliver(index, accepted) =>
        if index < |net.flight| {
          ArriveKeepsLedger(net, index, accepted);
        }
      case _ =>
        SameLedger(net, Apply(net, step));
    }
  }

  lemma {:induction false} RunKeepsLedger(net: Net, steps: seq<Step>)
    requires Ledger(net)
    ensures Ledger(Exec(net, steps))
    decreases |steps|
  {
    if steps == [] {
    } else {
      StepKeepsLedger(net, steps[0]);
      RunKeepsLedger(Apply(net, steps[0]), steps[1..]);
    }
  }

  /** In every run, what an id sent shows in the trail of a packet that descends from
      the id's own injection. */
  lemma SendsShowInTrail(start: Net, steps: seq<Step>, id: nat) returns (e: Emission)
    requires start.flight == [] && start.emitted == [] && start.origins == []
    requires Sends(Exec(start, steps).emitted, id) > 0
    ensures var net := Exec(start, steps);
            && id < |net.origins| && e in net.emitted && e.sent.origin == net.origins[id]
            && Sends(net.emitted, id) <= |e.sent.trail|
  {
    RunKeepsLedger(start, steps);
    var net := Exec(start, steps);
    assert Accounted(net, id);
    e :| e in net.emitted && e.sent.id == id && e.sent.origin == net.origins[id]
         && Sends(net.emitted, id) <= |e.sent.trail|;
  }

  // ------------------------------------------------------------ riding a path

  ghost predicate RidesUp(path: Path, pk: Packet, j: int) {
    var k := |pk.trail|;
    && 0 <= j && j + k + 1 < |path|
    && pk.origin.src == path[j] && pk.origin.dst == path[j + 1]
    && pk.dg.src == path[j + k] && pk.dg.dst == path[j + k + 1]
    && forall t :: 0 <= t < k ==> pk.trail[t] == Visit(path[j + 1 + t], Upstream)
  }

  ghost predicate RidesDown(path: Path, pk: Packet, j: int) {
    var k := |pk.trail|;
    && 0 <= j - k - 1 && j < |path|
    && pk.origin.src == path[j] && pk.origin.dst == path[j - 1]
    && pk.dg.src == path[j - k] && pk.dg.dst == path[j - k - 1]
    && forall t :: 0 <= t < k ==> pk.trail[t] == Visit(path[j - 1 - t], Downstream)
  }

  /** `pk` entered `path` at hop `j` and has since ridden it one way, hop by hop. */
  ghost predicate Rides(path: Path, pk: Packet, j: int) {
    RidesUp(path, pk, j) || RidesDown(path, pk, j)
  }

  /** What the row of hop `i` does with a packet that has come from `src`. */
  function HopDecides(path: Path, i: int, src: SocketAddr): Option<Decision>
    requires 1 <= i <= |path| - 2
  {
    if src == path[i - 1] then Some(Forward(path[i + 1], Upstream))
    else if src == path[i + 1] then Some(Forward(path[i - 1], Downstream))
    else None
  }

  /** Whichever of the path's rows takes a riding packet, the packet rides on. */
  ghost predicate RidesOn(path: Path, pk: Packet, i: int, j: int)
    requires 1 <= i <= |path| - 2
  {
    path[i] == pk.dg.dst && pk.trail != [] && Rides(path, pk, j) ==>
      var d := HopDecides(path, i, pk.dg.src);
      d.Some? ==> Rides(path, Relayed(pk, d.value.target, d.value.direction), j)
  }

  lemma OneWayRidesOn(path: Path, pk: Packet, i: int, j: int)
    requires OneWay(path) && 1 <= i <= |path| - 2
    ensures RidesOn(path, pk, i, j)
  {
    var d, k := HopDecides(path, i, pk.dg.src), |pk.trail|;
    if path[i] == pk.dg.dst && k > 0 && Rides(path, pk, j) && d.Some? {
      if RidesUp(path, pk, j) {
        RidesOnUp(path, pk, i, j);
      } else {
        RidesOnDown(path, pk, i, j);
      }
    }
  }

  lemma RidesOnUp(path: Path, pk: Packet, i: int, j: int)
    requires 1 <= i <= |path| - 2 && GoesUp(path, i, j + |pk.trail| + 1)
    requires path[i] == pk.dg.dst && pk.trail != [] && RidesUp(path, pk, j)
    ensures var d := HopDecides(path, i, pk.dg.src);
            d.Some? ==> RidesUp(path, Relayed(pk, d.value.target, d.value.direction), j)
  {
  }

  lemma RidesOnDown(path: Path, pk: Packet, i: int, j: int)
    requires 1 <= i <= |path| - 2 && GoesDown(path, i, j - |pk.trail| - 1)
    requires path[i] == pk.dg.dst && pk.trail != [] && RidesDown(path, pk, j)
    ensures var d := HopDecides(path, i, pk.dg.src);
            d.Some? ==> RidesDown(path, Relayed(pk, d.value.target, d.value.direction), j)
  {
  }

  // --------------------------------------------------------------- invariant

  ghost predicate PacketOk(plan: Plan, pk: Packet) {
    && pk.dg.bytes == pk.origin.bytes
    && if pk.trail == [] then pk.dg == pk.origin
       else
         var chain := PeekChainId(pk.dg.bytes);
         chain.Some? && chain.value in plan && exists j :: Rides(plan[chain.value], pk, j)
  }

  /** The forward at hop `i`: from the hop before to the hop after, in its direction. */
  ghost predicate Onward(path: Path, i: int, e: Emission) {
    match e.direction
    case Upstream => Between(path, i, e.sent.dg.src, e.received.dg.src, e.sent.dg.dst)
    case Downstream => Between(path, i, e.sent.dg.src, e.sent.dg.dst, e.received.dg.src)
  }

  /** An emission carries what was received, between two neighbours of its forwarder
      on the chain its own first 16 bytes name, one hop on in its one direction. */
  ghost predicate Confined(plan: Plan, e: Emission) {
    var chain := PeekChainId(e.sent.dg.bytes);
    && e.sent.dg.bytes == e.received.dg.bytes
    && e.sent.dg.src == e.received.dg.dst
    && e.sent.trail == e.received.trail + [Visit(e.received.dg.dst, e.direction)]
    && (forall t :: 0 <= t < |e.sent.trail| ==> e.sent.trail[t].direction == e.direction)
    && chain.Some? && chain.value in plan
    && exists i :: Onward(plan[chain.value], i, e)
  }

  /** How many forwards the datagram's own chain has room for. */
  function Budget(plan: Plan, bytes: Bytes): nat {
    var chain := PeekChainId(bytes);
    if chain.Some? && chain.value in plan && |plan[chain.value]| >= 2 then |plan[chain.value]| - 2 else 0
  }

  lemma TrailWithinBudget(plan: Plan, pk: Packet)
    requires PacketOk(plan, pk)
    ensures |pk.trail| <= Budget(plan, pk.origin.bytes)
  {
    if pk.trail != [] {
      var j :| Rides(plan[PeekChainId(pk.dg.bytes).value], pk, j);
    }
  }

  ghost predicate RowsOk(plan: Plan, nodes: map<SocketAddr, Table>) {
    forall node, chain :: node in nodes && chain in nodes[node] ==> RowFollows(plan, node, chain, nodes[node][chain])
  }

  ghost predicate Inv(plan: Plan, net: Net) {
    && RowsOk(plan, net.nodes)
    && Everywhere(net, pk => PacketOk(plan, pk), e => Confined(plan, e) && PacketOk(plan, e.sent))
  }

  /** The heart of confinement: a row that follows the plan moves a packet one hop
      on along the path it already rides. */
  lemma ForwardRides(plan: Plan, pk: Packet, table: Table, now: Time)
    requires ValidPlan(plan) && PacketOk(plan, pk)
    requires forall chain :: chain in table ==> RowFollows(plan, pk.dg.dst, chain, table[chain])
    requires Evaluate(table, pk.dg.bytes, pk.dg.src, now).Forward?
    ensures var e := Forwarded(pk, Evaluate(table, pk.dg.bytes, pk.dg.src, now));
            && PacketOk(plan, e.sent)
            && |e.sent.trail| <= Budget(plan, e.sent.origin.bytes)
            && Confined(plan, e)
  {
    var d := Evaluate(table, pk.dg.bytes, pk.dg.src, now);
    var e := Forwarded(pk, d);
    var chain := PeekChainId(pk.dg.bytes).value;
    var path, row := plan[chain], table[chain];
    var i :| Between(path, i, pk.dg.dst, row.allowedSrc, row.allowedDst);
    assert HopDecides(path, i, pk.dg.src) == Some(d);
    var j := if d.direction == Upstream then i - 1 else i + 1;
    if pk.trail != [] {
      j :| Rides(path, pk, j);
      OneWayRidesOn(path, pk, i, j);
    }
    assert Rides(path, e.sent, j);
    assert e.sent.trail[|pk.trail|].direction == d.direction;
    assert Onward(path, i, e);
    TrailWithinBudget(plan, e.sent);
  }

  lemma CopiesOk(plan: Plan)
    ensures Hereditary(pk => PacketOk(plan, pk))
  {
    forall pk, id | PacketOk(plan, pk)
      ensures PacketOk(plan, pk.(id := id))
    {
      if pk.trail != [] {
        var path := plan[PeekChainId(pk.dg.bytes).value];
        var j :| Rides(path, pk, j);
        assert Rides(path, pk.(id := id), j);
      }
    }
  }

  lemma RowsStayOk(plan: Plan, net: Net, step: Step)
    requires RowsOk(plan, net.nodes) && Issued(plan, step)
    ensures RowsOk(plan, Apply(net, step).nodes)
  {
  }

  lemma StepKeepsInv(plan: Plan, net: Net, step: Step)
    requires ValidPlan(plan) && Inv(plan, net) && Issued(plan, step)
    ensures Inv(plan, Apply(net, step))
  {
    RowsStayOk(plan, net, step);
    CopiesOk(plan);
    forall pk | PacketOk(plan, pk) && pk.dg.dst in net.nodes && Decided(net, pk).Forward?
      ensures PacketOk(plan, Forwarded(pk, Decided(net, pk)).sent) && Confined(plan, Forwarded(pk, Decided(net, pk)))
    {
      ForwardRides(plan, pk, net.nodes[pk.dg.dst], net.now);
    }
    StepKeepsEverywhere(net, step, pk => PacketOk(plan, pk), e => Confined(plan, e) && PacketOk(plan, e.sent));
  }

  lemma {:induction false} RunKeepsInv(plan: Plan, net: Net, steps: seq<Step>)
    requires ValidPlan(plan) && Inv(plan, net)
    requires forall i :: 0 <= i < |steps| ==> Issued(plan, steps[i])
    ensures Inv(plan, Exec(net, steps))
    decreases |steps|
  {
    if steps == [] {
    } else {
      StepKeepsInv(plan, net, steps[0]);
      RunKeepsInv(plan, Apply(net, steps[0]), steps[1..]);
    }
  }

  /** A run from before any traffic, with leases as planned. */
  ghost predicate Run(plan: Plan, start: Net, steps: seq<Step>) {
    Initial(start) && forall i :: 0 <= i < |steps| ==> Issued(plan, steps[i])
  }

  lemma ReachableInv(plan: Plan, start: Net, steps: seq<Step>)
    requires ValidPlan(plan) && Run(plan, start, steps)
    ensures Inv(plan, Exec(start, steps))
  {
    RunKeepsInv(plan, start, steps);
  }

  // ------------------------------------------------------------- keeping straight

  /** The packet was last sent by hop `k`, and always one way. */
  ghost predicate SentBy(path: Path, pk: Packet, k: int)
    requires pk.trail != []
  {
    var direction := pk.trail[|pk.trail| - 1].direction;
    && 1 <= k <= |path| - 2 && pk.dg.src == path[k]
    && (forall t :: 0 <= t < |pk.trail| ==> pk.trail[t].direction == direction)
    && match direction
       case Upstream => pk.dg.dst == path[k + 1]
       case Downstream => pk.dg.dst == path[k - 1] && path[k + 1] != path[k - 1]
  }

  ghost predicate Steered(plan: Plan, pk: Packet) {
    pk.trail != [] ==>
      var chain := PeekChainId(pk.dg.bytes);
      chain.Some? && chain.value in plan && exists k :: SentBy(plan[chain.value], pk, k)
  }

  /** A row of hop `i` that takes a packet sent by hop `k` sends it on the same way. */
  lemma SteersOn(path: Path, pk: Packet, k: int, i: int)
    requires pk.trail != [] && SentBy(path, pk, k) && 1 <= i <= |path| - 2 && path[i] == pk.dg.dst
    requires StaysUp(path, i, k + 1) && StaysDown(path, i, k - 1)
    requires HopDecides(path, i, pk.dg.src).Some?
    ensures var d := HopDecides(path, i, pk.dg.src).value;
            d.direction == pk.trail[|pk.trail| - 1].direction && SentBy(path, Relayed(pk, d.target, d.direction), i)
  {
  }

  lemma ForwardSteers(plan: Plan, pk: Packet, table: Table, now: Time)
    requires StraightPlan(plan) && Steered(plan, pk)
    requires forall chain :: chain in table ==> RowFollows(plan, pk.dg.dst, chain, table[chain])
    requires Evaluate(table, pk.dg.bytes, pk.dg.src, now).Forward?
    ensures var e := Forwarded(pk, Evaluate(table, pk.dg.bytes, pk.dg.src, now));
            Steered(plan, e.sent) && Confined(plan, e)
  {
    var d := Evaluate(table, pk.dg.bytes, pk.dg.src, now);
    var e := Forwarded(pk, d);
    var chain := PeekChainId(pk.dg.bytes).value;
    var path, row := plan[chain], table[chain];
    var i :| Between(path, i, pk.dg.dst, row.allowedSrc, row.allowedDst);
    assert HopDecides(path, i, pk.dg.src) == Some(d);
    if pk.trail != [] {
      var k :| SentBy(path, pk, k);
      assert StaysUp(path, i, k + 1) && StaysDown(path, i, k - 1);
      SteersOn(path, pk, k, i);
    }
    assert SentBy(path, e.sent, i);
    assert Onward(path, i, e);
  }

  lemma CopiesSteered(plan: Plan)
    ensures Hereditary(pk => Steered(plan, pk))
  {
    forall pk, id | Steered(plan, pk)
      ensures Steered(plan, pk.(id := id))
    {
      if pk.trail != [] {
        var path := plan[PeekChainId(pk.dg.bytes).value];
        var k :| SentBy(path, pk, k);
        assert SentBy(path, pk.(id := id), k);
      }
    }
  }

  ghost predicate StraightInv(plan: Plan, net: Net) {
    RowsOk(plan, net.nodes) && Everywhere(net, pk => Steered(plan, pk), e => Confined(plan, e))
  }

  lemma StepKeepsStraight(plan: Plan, net: Net, step: Step)
    requires StraightPlan(plan) && StraightInv(plan, net) && Issued(plan, step)
    ensures StraightInv(plan, Apply(net, step))
  {
    RowsStayOk(plan, net, step);
    CopiesSteered(plan);
    forall pk | Steered(plan, pk) && pk.dg.dst in net.nodes && Decided(net, pk).Forward?
      ensures Steered(plan, Forwarded(pk, Decided(net, pk)).sent) && Confined(plan, Forwarded(pk, Decided(net, pk)))
    {
      ForwardSteers(plan, pk, net.nodes[pk.dg.dst], net.now);
    }
    StepKeepsEverywhere(net, step, pk => Steered(plan, pk), e => Confined(plan, e));
  }

  lemma {:induction false} RunKeepsStraight(plan: Plan, net: Net, steps: seq<Step>)
    requires StraightPlan(plan) && StraightInv(plan, net)
    requires forall i :: 0 <= i < |steps| ==> Issued(plan, steps[i])
    ensures StraightInv(plan, Exec(net, steps))
    decreases |steps|
  {
    if steps == [] {
    } else {
      StepKeepsStraight(plan, net, steps[0]);
      RunKeepsStraight(plan, Apply(net, steps[0]), steps[1..]);
    }
  }

  // ------------------------------------------------------------ main results

  /** Confinement, and one-way progress: whatever is injected, everything any
      forwarder ever emits stays on the chain it names. */
  lemma ChainConfinement(plan: Plan, start: Net, steps: seq<Step>, e: Emission)
    requires StraightPlan(plan) && Run(plan, start, steps) && e in Exec(start, steps).emitted
    ensures Confined(plan, e)
  {
    RunKeepsStraight(plan, start, steps);
  }

  /** Loop freedom: an injected datagram causes at most as many sends as its chain
      has forwarders, and none at all if it names no chain. */
  lemma LoopFreedom(plan: Plan, start: Net, steps: seq<Step>, id: nat)
    requires ValidPlan(plan) && Run(plan, start, steps) && id < |Exec(start, steps).origins|
    ensures var net := Exec(start, steps);
            Sends(net.emitted, id) <= Budget(plan, net.origins[id].bytes)
  {
    ReachableInv(plan, start, steps);
    if Sends(Exec(start, steps).emitted, id) > 0 {
      var e := SendsShowInTrail(start, steps, id);
      TrailWithinBudget(plan, e.sent);
    }
  }

  /** Rows as leases describe them, each hop between its two neighbours, are enough on paths
      of distinct addresses: every emission is confined and every datagram sent once per
      forwarder at most. */
  lemma DistinctPathsSuffice(plan: Plan, start: Net, steps: seq<Step>)
    requires forall chain :: chain in plan ==> WellFormed(plan[chain])
    requires Run(plan, start, steps)
    ensures var net := Exec(start, steps);
            && (forall e :: e in net.emitted ==> Confined(plan, e))
            && (forall id :: 0 <= id < |net.origins| ==>
                               Sends(net.emitted, id) <= Budget(plan, net.origins[id].bytes))
  {
    forall chain | chain in plan
      ensures OneWay(plan[chain]) && Straight(plan[chain])
    {
      DistinctIsOneWay(plan[chain]);
      OneWayIsStraight(plan[chain]);
    }
    forall e | e in Exec(start, steps).emitted
      ensures Confined(plan, e)
    {
      ChainConfinement(plan, start, steps, e);
    }
    forall id | 0 <= id < |Exec(start, steps).origins|
      ensures Sends(Exec(start, steps).emitted, id) <= Budget(plan, Exec(start, steps).origins[id].bytes)
    {
      LoopFreedom(plan, start, steps, id);
    }
  }

  // ---------------------------------------------------------------- provenance

  ghost predicate SameJourney(a: Packet, b: Packet) {
    a.dg == b.dg && a.origin == b.origin && a.trail == b.trail
  }

  /** The packet is a datagram injected as it stands, or one a forwarder sent. */
  ghost predicate Grounded(emitted: seq<Emission>, origins: seq<Datagram>, pk: Packet) {
    if pk.trail == [] then pk.dg == pk.origin && pk.origin in origins
    else exists i :: 0 <= i < |emitted| && SameJourney(emitted[i].sent, pk)
  }

  ghost predicate Traced(net: Net) {
    && (forall i :: 0 <= i < |net.flight| ==> Grounded(net.emitted, net.origins, net.flight[i]))
    && (forall i :: 0 <= i < |net.emitted| ==>
                      Grounded(net.emitted[..i], net.origins, net.emitted[i].received))
  }

  lemma GroundedGrows(emitted: seq<Emission>, origins: seq<Datagram>, more: seq<Emission>, others: seq<Datagram>,
                      pk: Packet)
    requires Grounded(emitted, origins, pk)
    ensures Grounded(emitted + more, origins + others, pk)
  {
    if pk.trail != [] {
      var i :| 0 <= i < |emitted| && SameJourney(emitted[i].sent, pk);
      assert SameJourney((emitted + more)[i].sent, pk);
    }
  }

  /** Histories only grow. */
  lemma StepExtends(net: Net, step: Step) returns (more: seq<Emission>, others: seq<Datagram>)
    ensures Apply(net, step).emitted == net.emitted + more && Apply(net, step).origins == net.origins + others
    ensures |more| <= 1 && (|more| == 1 ==> more[0].received in net.flight && others == [])
  {
    var next := Apply(net, step);
    more, others := next.emitted[|net.emitted|..], next.origins[|net.origins|..];
  }

  /** A packet in flight after a step was there before, or was just injected, copied
      from one that was, or emitted. */
  lemma FlightOrigins(net: Net, step: Step, pk: Packet)
    requires pk in Apply(net, step).flight
    ensures var next := Apply(net, step);
            || (exists i :: 0 <= i < |net.flight| && SameJourney(net.flight[i], pk))
            || (pk.trail == [] && pk.dg == pk.origin && pk.origin in next.origins)
            || (pk.trail != [] && |next.emitted| == |net.emitted| + 1
                && SameJourney(next.emitted[|net.emitted|].sent, pk))
  {
    var next := Apply(net, step);
    if i :| 0 <= i < |net.flight| && net.flight[i] == pk {
      assert SameJourney(net.flight[i], pk);
    } else if step.Duplicate? {
      assert SameJourney(net.flight[step.index], pk);
    } else if step.Inject? {
      assert next.origins[|net.origins|] == pk.origin;
    }
  }

  lemma StepKeepsTraced(net: Net, step: Step)
    requires Traced(net)
    ensures Traced(Apply(net, step))
  {
    var next := Apply(net, step);
    var more, others := StepExtends(net, step);
    forall i | 0 <= i < |next.emitted|
      ensures Grounded(next.emitted[..i], next.origins, next.emitted[i].received)
    {
      var n := if i < |net.emitted| then i else |net.emitted|;
      assert next.emitted[..i] == net.emitted[..n] + [];
      assert net.emitted[..|net.emitted|] == net.emitted;
      GroundedGrows(net.emitted[..n], net.origins, [], others, next.emitted[i].received);
    }
    forall i | 0 <= i < |next.flight|
      ensures Grounded(next.emitted, next.origins, next.flight[i])
    {
      var pk := next.flight[i];
      FlightOrigins(net, step, pk);
      if j :| 0 <= j < |net.flight| && SameJourney(net.flight[j], pk) {
        SameGround(net.emitted, net.origins, net.flight[j], pk);
        GroundedGrows(net.emitted, net.origins, more, others, pk);
      }
    }
  }

  lemma SameGround(emitted: seq<Emission>, origins: seq<Datagram>, a: Packet, b: Packet)
    requires SameJourney(a, b) && Grounded(emitted, origins, a)
    ensures Grounded(emitted, origins, b)
  {
    if a.trail != [] {
      var i :| 0 <= i < |emitted| && SameJourney(emitted[i].sent, a);
      assert SameJourney(emitted[i].sent, b);
    }
  }

  lemma {:induction false} RunKeepsTraced(net: Net, steps: seq<Step>)
    requires Traced(net)
    ensures Traced(Exec(net, steps))
    decreases |steps|
  {
    if steps == [] {
    } else {
      StepKeepsTraced(net, steps[0]);
      RunKeepsTraced(Apply(net, steps[0]), steps[1..]);
    }
  }

  /** Forwarders invent nothing: what a forwarder received before it sent anything was
      injected as it stands, or had itself been sent by a forwarder before. */
  lemma EmissionsAreGrounded(start: Net, steps: seq<Step>, i: nat)
    requires Initial(start) && i < |Exec(start, steps).emitted|
    ensures var net := Exec(start, steps);
            Grounded(net.emitted[..i], net.origins, net.emitted[i].received)
  {
    RunKeepsTraced(start, steps);
  }

  ghost predicate Seen(net: Net, pk: Packet) {
    pk in net.flight || pk in net.inbox
  }

  /** Every forwarder of the path, once and in order. */
  function WholeWayUp(path: Path): seq<Visit>
    requires |path| >= 2
  {
    seq(|path| - 2, t requires 0 <= t < |path| - 2 => Visit(path[t + 1], Upstream))
  }

  function WholeWayDown(path: Path): seq<Visit>
    requires |path| >= 2
  {
    seq(|path| - 2, t requires 0 <= t < |path| - 2 => Visit(path[|path| - 2 - t], Downstream))
  }

  lemma RodeToTheExit(path: Path, pk: Packet)
    requires WellFormed(path) && (pk.trail == [] ==> pk.dg == pk.origin)
    requires pk.trail != [] ==> exists j :: Rides(path, pk, j)
    requires pk.origin.src == path[0] && pk.origin.dst == path[1] && pk.dg.dst == path[|path| - 1]
    ensures pk.trail == WholeWayUp(path) && pk.dg.src == path[|path| - 2]
  {
    if pk.trail != [] {
      var j :| Rides(path, pk, j);
      assert j == 0;
    }
  }

  lemma RodeToTheClient(path: Path, pk: Packet)
    requires WellFormed(path) && (pk.trail == [] ==> pk.dg == pk.origin)
    requires pk.trail != [] ==> exists j :: Rides(path, pk, j)
    requires pk.origin.src == path[|path| - 1] && pk.origin.dst == path[|path| - 2] && pk.dg.dst == path[0]
    ensures pk.trail == WholeWayDown(path) && pk.dg.src == path[1]
  {
    if pk.trail != [] {
      var j :| Rides(path, pk, j);
      assert j == |path| - 1;
    }
  }

  /** A client frame seen at its exit came through the forwarders of its path, each once
      and in order, unchanged, and opens there to the plaintext that went in. */
  lemma UpstreamDelivery(plan: Plan, start: Net, steps: seq<Step>, chain: ChainId, pk: Packet,
                         encap: Bytes -> EncapOutcome, decap: Bytes -> DecapOutcome, seals: Bytes -> bool,
                         plain: Bytes)
    requires ValidPlan(plan) && Run(plan, start, steps)
    requires Seen(Exec(start, steps), pk) && chain in plan && WellFormed(plan[chain])
    requires Opens(encap, decap, seals) && encap(plain).WriteToNetwork? && encap(plain).datagram != []
    requires var path := plan[chain];
             && pk.origin == Datagram(path[0], path[1], OutboundBody(MultiHop(chain), encap(plain)).value)
             && pk.dg.dst == path[|path| - 1]
    ensures var path := plan[chain];
            && pk.dg.bytes == OutboundBody(MultiHop(chain), encap(plain)).value
            && pk.trail == WholeWayUp(path)
            && pk.dg.src == path[|path| - 2]
            && InboundPlain(MultiHop(chain), decap, pk.dg.bytes) == Opened(decap(encap(plain).datagram))
            && (seals(encap(plain).datagram) ==> InboundPlain(MultiHop(chain), decap, pk.dg.bytes) == Ok(Some(plain)))
  {
    ReachableInv(plan, start, steps);
    assert PacketOk(plan, pk);
    FrameRoundTrip(RelayFrame(chain, encap(plain).datagram));
    SessionRoundTrip(MultiHop(chain), encap, decap, seals, plain);
    RodeToTheExit(plan[chain], pk);
  }

  /** A reply seen at the client came back through the forwarders of its path, each once
      and in reverse order, unchanged, and passes the session's chain check. */
  lemma DownstreamDelivery(plan: Plan, start: Net, steps: seq<Step>, chain: ChainId, pk: Packet,
                           wgPayload: Bytes, decap: Bytes -> DecapOutcome)
    requires ValidPlan(plan) && Run(plan, start, steps)
    requires Seen(Exec(start, steps), pk) && chain in plan && WellFormed(plan[chain])
    requires var path := plan[chain];
             && pk.origin == Datagram(path[|path| - 1], path[|path| - 2], RelayFrame(chain, wgPayload).Encode())
             && pk.dg.dst == path[0]
    ensures var path := plan[chain];
            && pk.dg.bytes == RelayFrame(chain, wgPayload).Encode()
            && pk.trail == WholeWayDown(path)
            && pk.dg.src == path[1]
            && InboundPlain(MultiHop(chain), decap, pk.dg.bytes) == Opened(decap(wgPayload))
  {
    ReachableInv(plan, start, steps);
    assert PacketOk(plan, pk);
    FrameRoundTrip(RelayFrame(chain, wgPayload));
    assert pk.dg.bytes[..RELAY_FRAME_PREFIX_LEN] == chain;
    assert pk.dg.bytes[RELAY_FRAME_PREFIX_LEN..] == wgPayload;
    RodeToTheClient(plan[chain], pk);
  }

  // ------------------------------------------------- sweeping the whole network

  function WithoutSweeps(steps: seq<Step>): (kept: seq<Step>)
    ensures forall i :: 0 <= i < |kept| ==> !kept[i].Sweep?
    ensures (forall i :: 0 <= i < |steps| ==> !steps[i].Sweep?) ==> kept == steps
    decreases |steps|
  {
    if steps == [] then []
    else (if steps[0].Sweep? then [] else [steps[0]]) + WithoutSweeps(steps[1..])
  }

  /** Alike in everything that travels; tables differ only by rows that have ended. */
  ghost predicate AlikeButSwept(swept: Net, kept: Net) {
    && swept.(nodes := kept.nodes) == kept
    && swept.nodes.Keys == kept.nodes.Keys
    && forall node :: node in swept.nodes ==>
                        SweepRefinement.Prunes(swept.nodes[node], kept.nodes[node], swept.now)
  }

  lemma ArriveAlike(swept: Net, kept: Net, index: nat, accepted: bool)
    requires AlikeButSwept(swept, kept) && index < |swept.flight|
    ensures AlikeButSwept(Arrive(swept, index, accepted), Arrive(kept, index, accepted))
  {
    var pk := swept.flight[index];
    if pk.dg.dst in swept.nodes {
      SweepRefinement.PrunedDecision(swept.nodes[pk.dg.dst], kept.nodes[pk.dg.dst], swept.now,
                                     pk.dg.bytes, pk.dg.src, swept.now);
    }
  }

  lemma TablesAlike(swept: Net, kept: Net, step: Step)
    requires AlikeButSwept(swept, kept) && (step.Lease? || step.Sweep? || step.Pass?)
    ensures AlikeButSwept(Apply(swept, step), if step.Sweep? then kept else Apply(kept, step))
  {
  }

  lemma StepAlike(swept: Net, kept: Net, step: Step)
    requires AlikeButSwept(swept, kept)
    ensures AlikeButSwept(Apply(swept, step), if step.Sweep? then kept else Apply(kept, step))
  {
    match step {
      case Deliver(index, accepted) =>
        if index < |swept.flight| {
          ArriveAlike(swept, kept, index, accepted);
        }
      case Inject(_) =>
      case Duplicate(_) =>
      case Lose(_) =>
      case _ => TablesAlike(swept, kept, step);
    }
  }

  lemma {:induction false} RunsAlike(swept: Net, kept: Net, steps: seq<Step>)
    requires AlikeButSwept(swept, kept)
    ensures AlikeButSwept(Exec(swept, steps), Exec(kept, WithoutSweeps(steps)))
    decreases |steps|
  {
    if steps == [] {
    } else {
      StepAlike(swept, kept, steps[0]);
      if steps[0].Sweep? {
        assert WithoutSweeps(steps) == WithoutSweeps(steps[1..]);
        RunsAlike(Apply(swept, steps[0]), kept, steps[1..]);
      } else {
        assert WithoutSweeps(steps)[0] == steps[0] && WithoutSweeps(steps)[1..] == WithoutSweeps(steps[1..]);
        RunsAlike(Apply(swept, steps[0]), Apply(kept, steps[0]), steps[1..]);
      }
    }
  }

  /** Sweeping is invisible to the whole network: deleting every sweep of every forwarder
      from a run leaves all that travels, arrives or was ever sent as it was. */
  lemma NetworkSweepIsInvisible(start: Net, steps: seq<Step>)
    ensures var a, b := Exec(start, steps), Exec(start, WithoutSweeps(steps));
            a.flight == b.flight && a.inbox == b.inbox && a.emitted == b.emitted && a.origins == b.origins
  {
    RunsAlike(start, start, steps);
  }

  /** A packet due at an address that is no forwarder's comes in there as it is. */
  lemma EndpointReceives(net: Net, index: nat, accepted: bool)
    requires index < |net.flight| && net.flight[index].dg.dst !in net.nodes
    ensures var next := Apply(net, Deliver(index, accepted));
            && next.inbox == net.inbox + [net.flight[index]] && next.emitted == net.emitted
            && next.flight == Without(net.flight, index) && next.nodes == net.nodes
  {
  }

  // ---------------------------------------------- the network's nodes are nodes

  /** What the network does at a forwarder is what the forwarder's own loop does: its table
      after a lease or a sweep, and what it sends of what it receives. */
  lemma NodesRunInNetwork(net: Net, node: SocketAddr, lease: ForwarderLease, index: nat, accepted: bool,
                          metrics: Metrics)
    requires node in net.nodes
    ensures var st := NodeState(net.nodes[node], metrics, []);
            && Apply(net, Lease(node, lease)).nodes[node] == NodeStep(st, Leased(lease)).routing
            && Apply(net, Sweep(node)).nodes[node] == NodeStep(st, SweepTick(net.now)).routing
            && (index < |net.flight| && net.flight[index].dg.dst == node ==>
                  var pk, next := net.flight[index], Apply(net, Deliver(index, accepted));
                  var outbox := NodeStep(st, Received(pk.dg.bytes, pk.dg.src, net.now, accepted)).outbox;
                  && next.nodes == net.nodes && |outbox| <= 1
                  && next.emitted[|net.emitted|..]
                     == (if outbox == [] then [] else [Forwarded(pk, Decided(net, pk))])
                  && (outbox != [] ==>
                        var sent := Forwarded(pk, Decided(net, pk)).sent;
                        sent.dg == Datagram(node, outbox[0].target, outbox[0].bytes)))
  {
  }

  // ------------------------------------------------------- delivery can happen

  /** Every forwarder of `path` holds its row, in force at the current instant. */
  ghost predicate Armed(nodes: map<SocketAddr, Table>, now: Time, chain: ChainId, path: Path) {
    forall i :: 1 <= i <= |path| - 2 ==> HopArmed(nodes, now, chain, path, i)
  }

  ghost predicate HopArmed(nodes: map<SocketAddr, Table>, now: Time, chain: ChainId, path: Path, i: int)
    requires 1 <= i <= |path| - 2
  {
    && path[i] in nodes && chain in nodes[path[i]]
    && var row := nodes[path[i]][chain];
       row.allowedSrc == path[i - 1] && row.allowedDst == path[i + 1] && now <= row.leaseExpiresAt
  }

  /** Deliver the last packet in flight, `count` times over. */
  function Deliveries(net: Net, count: nat): seq<Step>
    decreases count
  {
    if count == 0 || |net.flight| == 0 then []
    else
      var step := Deliver(|net.flight| - 1, true);
      [step] + Deliveries(Apply(net, step), count - 1)
  }

  /** On an armed path an upstream frame headed for hop `m` reaches the exit, as it
      is, in |path|-1-m forwards: one per forwarder for a frame the client just sent. */
  lemma {:induction false} UpstreamReaches(net: Net, chain: ChainId, path: Path, m: nat)
    requires WellFormed(path) && Armed(net.nodes, net.now, chain, path) && 1 <= m <= |path| - 1 && |net.flight| > 0
    requires var pk := net.flight[|net.flight| - 1];
             pk.dg.src == path[m - 1] && pk.dg.dst == path[m] && PeekChainId(pk.dg.bytes) == Some(chain)
    ensures var pk := net.flight[|net.flight| - 1];
            var end := Exec(net, Deliveries(net, |path| - 1 - m));
            && |end.flight| == |net.flight|
            && var last := end.flight[|end.flight| - 1];
               last.dg == Datagram(path[|path| - 2], path[|path| - 1], pk.dg.bytes)
               && |last.trail| == |pk.trail| + (|path| - 1 - m)
               && last.origin == pk.origin
    decreases |path| - m
  {
    if m == |path| - 1 {
    } else {
      var step := Deliver(|net.flight| - 1, true);
      var next := Apply(net, step);
      var steps := Deliveries(net, |path| - 1 - m);
      assert HopArmed(net.nodes, net.now, chain, path, m);
      UpstreamReaches(next, chain, path, m + 1);
      assert steps[0] == step && steps[1..] == Deliveries(next, |path| - 2 - m);
    }
  }

  /** On an armed path a downstream frame headed for hop `m` reaches the client in m forwards. */
  lemma {:induction false} DownstreamReaches(net: Net, chain: ChainId, path: Path, m: nat)
    requires WellFormed(path) && Armed(net.nodes, net.now, chain, path) && m <= |path| - 2 && |net.flight| > 0
    requires var pk := net.flight[|net.flight| - 1];
             pk.dg.src == path[m + 1] && pk.dg.dst == path[m] && PeekChainId(pk.dg.bytes) == Some(chain)
    ensures var pk := net.flight[|net.flight| - 1];
            var end := Exec(net, Deliveries(net, m));
            && |end.flight| == |net.flight|
            && var last := end.flight[|end.flight| - 1];
               last.dg == Datagram(path[1], path[0], pk.dg.bytes)
               && |last.trail| == |pk.trail| + m
               && last.origin == pk.origin
    decreases m
  {
    if m == 0 {
    } else {
      var step := Deliver(|net.flight| - 1, true);
      var next := Apply(net, step);
      var steps := Deliveries(net, m);
      assert HopArmed(net.nodes, net.now, chain, path, m);
      DownstreamReaches(next, chain, path, m - 1);
      assert steps[0] == step && steps[1..] == Deliveries(next, m - 1);
    }
  }
}
