/** One intermediate node: a lease table, the decision it takes for every
    datagram, and the loop that receives, decides, sends and sweeps. */
module Forwarder {
  import opened Base
  import opened Relay

  datatype ForwarderLease = ForwarderLease(
    forwarder: Octets16,
    chainId: ChainId,
    allowedSrc: SocketAddr,
    allowedDst: SocketAddr,
    leaseExpiresAt: Time)

  datatype RoutingEntry = RoutingEntry(
    allowedSrc: SocketAddr,
    allowedDst: SocketAddr,
    leaseExpiresAt: Time)

  type Table = map<ChainId, RoutingEntry>

  datatype Direction = Upstream | Downstream

  datatype DropReason = UnknownChain | SrcMismatch | ExpiredLease | Other

  datatype Decision = Forward(target: SocketAddr, direction: Direction) | Drop(reason: DropReason)

  // ---------------------------------------------------------------- decisions

  function EntryFrom(lease: ForwarderLease): RoutingEntry {
    RoutingEntry(lease.allowedSrc, lease.allowedDst, lease.leaseExpiresAt)
  }

  function Inserted(table: Table, lease: ForwarderLease): Table {
    table[lease.chainId := EntryFrom(lease)]
  }

  function Retained(table: Table, now: Time): Table {
    map chain | chain in table && table[chain].leaseExpiresAt >= now :: table[chain]
  }

  function ClassifyDirection(src: SocketAddr, entry: RoutingEntry): Option<Direction> {
    if src == entry.allowedSrc then Some(Upstream)
    else if src == entry.allowedDst then Some(Downstream)
    else None
  }

  function Evaluate(table: Table, payload: Bytes, src: SocketAddr, now: Time): Decision {
    match PeekChainId(payload)
    case None => Drop(Other)
    case Some(chain) =>
      if chain !in table then Drop(UnknownChain)
      else
        var entry := table[chain];
        match ClassifyDirection(src, entry)
        case None => Drop(SrcMismatch)
        case Some(direction) =>
          if entry.leaseExpiresAt < now then Drop(ExpiredLease)
          else Forward(if direction == Upstream then entry.allowedDst else entry.allowedSrc, direction)
  }

  /** Exactly which datagrams are relayed, to whom, and why the others are not. */
  lemma EvaluateExact(table: Table, payload: Bytes, src: SocketAddr, now: Time)
    ensures var d := Evaluate(table, payload, src, now);
            var live := |payload| >= 16 && payload[..16] in table;
            && (d == Drop(Other) <==> |payload| < 16)
            && (d == Drop(UnknownChain) <==> |payload| >= 16 && payload[..16] !in table)
            && (live ==>
                  var row := table[payload[..16]];
                  && (d == Forward(row.allowedDst, Upstream)
                      <==> src == row.allowedSrc && now <= row.leaseExpiresAt)
                  && (d == Forward(row.allowedSrc, Downstream)
                      <==> src == row.allowedDst && src != row.allowedSrc && now <= row.leaseExpiresAt)
                  && (d == Drop(ExpiredLease)
                      <==> src in {row.allowedSrc, row.allowedDst} && row.leaseExpiresAt < now)
                  && (d == Drop(SrcMismatch) <==> src !in {row.allowedSrc, row.allowedDst}))
  {
  }

  /** A lease, once inserted, relays both ways between its two peers until it ends,
      replacing whatever its chain had before and touching no other chain. */
  lemma LeaseRoutes(table: Table, lease: ForwarderLease, payload: Bytes, src: SocketAddr, now: Time)
    requires |payload| >= 16
    ensures var after := Evaluate(Inserted(table, lease), payload, src, now);
            if payload[..16] != lease.chainId then after == Evaluate(table, payload, src, now)
            else if src !in {lease.allowedSrc, lease.allowedDst} then after == Drop(SrcMismatch)
            else if lease.leaseExpiresAt < now then after == Drop(ExpiredLease)
            else after == if src == lease.allowedSrc then Forward(lease.allowedDst, Upstream)
                          else Forward(lease.allowedSrc, Downstream)
  {
  }

  /** The sweep and the expiry check share one boundary: a row is evicted exactly
      when it could no longer relay anything. */
  lemma SweepBoundary(table: Table, now: Time, chain: ChainId)
    requires chain in table
    ensures chain in Retained(table, now)
            <==> exists payload: Bytes, src: SocketAddr ::
                   PeekChainId(payload) == Some(chain) && Evaluate(table, payload, src, now).Forward?
  {
    if chain in Retained(table, now) {
      assert PeekChainId(chain) == Some(chain) by { assert chain[..16] == chain; }
      assert Evaluate(table, chain, table[chain].allowedSrc, now).Forward?;
    }
  }

  // ------------------------------------------------------------------ metrics

  datatype Metrics = Metrics(
    inUp: nat, inDown: nat,
    outUp: nat, outDown: nat,
    unknownChain: nat, srcMismatch: nat, expiredLease: nat, other: nat)
  {
    function CountIn(direction: Direction): Metrics {
      match direction
      case Upstream => this.(inUp := inUp + 1)
      case Downstream => this.(inDown := inDown + 1)
    }

    function CountOut(direction: Direction): Metrics {
      match direction
      case Upstream => this.(outUp := outUp + 1)
      case Downstream => this.(outDown := outDown + 1)
    }

    function CountDrop(reason: DropReason): Metrics {
      match reason
      case UnknownChain => this.(unknownChain := unknownChain + 1)
      case SrcMismatch => this.(srcMismatch := srcMismatch + 1)
      case ExpiredLease => this.(expiredLease := expiredLease + 1)
      case Other => this.(other := other + 1)
    }

    function Out(): nat { outUp + outDown }

    function Dropped(): nat { unknownChain + srcMismatch + expiredLease + other }
  }

  const NO_METRICS := Metrics(0, 0, 0, 0, 0, 0, 0, 0)

  // ---------------------------------------------------------------- loop spec

  /** What one turn of the receive loop, or of the lease task beside it, meets.
      `sent` is whether the socket accepts the datagram, should one be sent. */
  datatype LoopEvent =
    | Leased(lease: ForwarderLease)
    | SweepTick(now: Time)
    | Received(payload: Bytes, src: SocketAddr, at: Time, sent: bool)
    | ReceiveFailed
    | Cancelled

  datatype Sent = Sent(target: SocketAddr, bytes: Bytes)

  datatype NodeState = NodeState(routing: Table, metrics: Metrics, outbox: seq<Sent>)

  function Act(st: NodeState, payload: Bytes, decision: Decision, sent: bool): NodeState {
    match decision
    case Drop(reason) => st.(metrics := st.metrics.CountDrop(reason))
    case Forward(target, direction) =>
      var counted := st.metrics.CountIn(direction);
      if sent then
        st.(metrics := counted.CountOut(direction), outbox := st.outbox + [Sent(target, payload)])
      else
        st.(metrics := counted.CountDrop(Other))
  }

  function NodeStep(st: NodeState, event: LoopEvent): NodeState {
    match event
    case Leased(lease) => st.(routing := Inserted(st.routing, lease))
    case SweepTick(now) => st.(routing := Retained(st.routing, now))
    case Received(payload, src, at, sent) =>
      Act(st, payload, Evaluate(st.routing, payload, src, at), sent)
    case ReceiveFailed => st.(metrics := st.metrics.CountDrop(Other))
    case Cancelled => st
  }

  function NodeRun(st: NodeState, events: seq<LoopEvent>): NodeState
    decreases |events|
  {
    if events == [] || events[0].Cancelled? then st
    else NodeRun(NodeStep(st, events[0]), events[1..])
  }

  // --------------------------------------------------------------- accounting

  /** How one receive result ended. */
  datatype Fate =
    | Relayed(direction: Direction, sent: Sent)
    | SendFailed(direction: Direction)
    | Discarded(reason: DropReason)

  /** The fate of the receive result an event carries, if it carries one. */
  function FateOf(table: Table, event: LoopEvent): seq<Fate> {
    match event
    case ReceiveFailed => [Discarded(Other)]
    case Received(payload, src, at, sent) =>
      [match Evaluate(table, payload, src, at)
       case Drop(reason) => Discarded(reason)
       case Forward(target, direction) =>
         if sent then Relayed(direction, Sent(target, payload)) else SendFailed(direction)]
    case _ => []
  }

  function TableStep(table: Table, event: LoopEvent): Table {
    match event
    case Leased(lease) => Inserted(table, lease)
    case SweepTick(now) => Retained(table, now)
    case _ => table
  }

  /** The fates of all receive results of a run, in order. */
  function Fates(table: Table, events: seq<LoopEvent>): seq<Fate>
    decreases |events|
  {
    if events == [] || events[0].Cancelled? then []
    else FateOf(table, events[0]) + Fates(TableStep(table, events[0]), events[1..])
  }

  function ReceiveResults(events: seq<LoopEvent>): nat
    decreases |events|
  {
    if events == [] || events[0].Cancelled? then 0
    else (if events[0].Received? || events[0].ReceiveFailed? then 1 else 0) + ReceiveResults(events[1..])
  }

  function SendFailures(fates: seq<Fate>, direction: Direction): nat {
    if fates == [] then 0
    else (if fates[0] == SendFailed(direction) then 1 else 0) + SendFailures(fates[1..], direction)
  }

  function RelayedDatagrams(fates: seq<Fate>): seq<Sent> {
    if fates == [] then []
    else (if fates[0].Relayed? then [fates[0].sent] else []) + RelayedDatagrams(fates[1..])
  }

  function Discards(fates: seq<Fate>, reason: DropReason): nat {
    if fates == [] then 0
    else (if fates[0] == Discarded(reason) then 1 else 0) + Discards(fates[1..], reason)
  }

  function RelayedTo(fates: seq<Fate>, direction: Direction): nat {
    if fates == [] then 0
    else (if fates[0].Relayed? && fates[0].direction == direction then 1 else 0) + RelayedTo(fates[1..], direction)
  }

  /** Each counter by the fates it counts: the four drop reasons, a failed send under the
      last, and what was relayed each way. */
  ghost predicate CountsByFate(start: Metrics, end: Metrics, fates: seq<Fate>) {
    && end.unknownChain - start.unknownChain == Discards(fates, UnknownChain)
    && end.srcMismatch - start.srcMismatch == Discards(fates, SrcMismatch)
    && end.expiredLease - start.expiredLease == Discards(fates, ExpiredLease)
    && end.other - start.other
       == Discards(fates, Other) + SendFailures(fates, Upstream) + SendFailures(fates, Downstream)
    && end.outUp - start.outUp == RelayedTo(fates, Upstream)
    && end.outDown - start.outDown == RelayedTo(fates, Downstream)
    && end.inUp - start.inUp == RelayedTo(fates, Upstream) + SendFailures(fates, Upstream)
    && end.inDown - start.inDown == RelayedTo(fates, Downstream) + SendFailures(fates, Downstream)
  }

  /** Every fate is counted once, as out or as dropped; per direction, in = out +
      send failures; and the outbox grows by exactly what was relayed. */
  ghost predicate Accounts(start: NodeState, end: NodeState, fates: seq<Fate>) {
    && |fates| == (end.metrics.Out() - start.metrics.Out()) + (end.metrics.Dropped() - start.metrics.Dropped())
    && end.metrics.inUp - start.metrics.inUp
       == (end.metrics.outUp - start.metrics.outUp) + SendFailures(fates, Upstream)
    && end.metrics.inDown - start.metrics.inDown
       == (end.metrics.outDown - start.metrics.outDown) + SendFailures(fates, Downstream)
    && end.outbox == start.outbox + RelayedDatagrams(fates)
    && end.metrics.Out() - start.metrics.Out() == |RelayedDatagrams(fates)|
  }

  lemma StepAccounts(st: NodeState, event: LoopEvent)
    ensures Accounts(st, NodeStep(st, event), FateOf(st.routing, event))
    ensures NodeStep(st, event).routing == TableStep(st.routing, event)
  {
    var fates := FateOf(st.routing, event);
    assert fates == [] || fates[1..] == [];
    assert st.outbox + [] == st.outbox;
  }

  lemma AccountsCompose(a: NodeState, b: NodeState, c: NodeState, first: seq<Fate>, rest: seq<Fate>)
    requires |first| <= 1 && Accounts(a, b, first) && Accounts(b, c, rest)
    ensures Accounts(a, c, first + rest)
  {
    if first == [] {
      assert first + rest == rest;
    } else {
      assert (first + rest)[1..] == rest && first[1..] == [];
      forall d: Direction
        ensures SendFailures(first + rest, d) == SendFailures(first, d) + SendFailures(rest, d)
      {
        assert (first + rest)[0] == first[0];
        assert SendFailures(first[1..], d) == 0;
      }
      assert RelayedDatagrams(first) + RelayedDatagrams(rest) == RelayedDatagrams(first + rest);
    }
  }

  lemma StepCountsByFate(st: NodeState, event: LoopEvent)
    ensures CountsByFate(st.metrics, NodeStep(st, event).metrics, FateOf(st.routing, event))
  {
    var fates := FateOf(st.routing, event);
    assert fates == [] || fates[1..] == [];
  }

  lemma CountsCompose(a: Metrics, b: Metrics, c: Metrics, first: seq<Fate>, rest: seq<Fate>)
    requires |first| <= 1 && CountsByFate(a, b, first) && CountsByFate(b, c, rest)
    ensures CountsByFate(a, c, first + rest)
  {
    if first == [] {
      assert first + rest == rest;
    } else {
      assert (first + rest)[0] == first[0] && (first + rest)[1..] == rest && first[1..] == [];
      forall reason: DropReason
        ensures Discards(first + rest, reason) == Discards(first, reason) + Discards(rest, reason)
      {
        assert Discards(first[1..], reason) == 0;
      }
      forall d: Direction
        ensures SendFailures(first + rest, d) == SendFailures(first, d) + SendFailures(rest, d)
        ensures RelayedTo(first + rest, d) == RelayedTo(first, d) + RelayedTo(rest, d)
      {
        assert SendFailures(first[1..], d) == 0 && RelayedTo(first[1..], d) == 0;
      }
    }
  }

  /** Over every run, each counter is the number of receive results of its own fate. */
  lemma {:induction false} CountersByFate(st: NodeState, events: seq<LoopEvent>)
    ensures CountsByFate(st.metrics, NodeRun(st, events).metrics, Fates(st.routing, events))
    decreases |events|
  {
    if events == [] || events[0].Cancelled? {
    } else {
      var next := NodeStep(st, events[0]);
      StepCountsByFate(st, events[0]);
      StepAccounts(st, events[0]);
      CountersByFate(next, events[1..]);
      CountsCompose(st.metrics, next.metrics, NodeRun(st, events).metrics, FateOf(st.routing, events[0]),
                    Fates(next.routing, events[1..]));
    }
  }

  /** The fate of every receive result, by what arrived and what the table holds. */
  lemma FateExact(table: Table, payload: Bytes, src: SocketAddr, at: Time, sent: bool)
    ensures FateOf(table, ReceiveFailed) == [Discarded(Other)]
    ensures var fate := FateOf(table, Received(payload, src, at, sent));
            if |payload| < 16 then fate == [Discarded(Other)]
            else if payload[..16] !in table then fate == [Discarded(UnknownChain)]
            else
              var row := table[payload[..16]];
              if src !in {row.allowedSrc, row.allowedDst} then fate == [Discarded(SrcMismatch)]
              else if row.leaseExpiresAt < at then fate == [Discarded(ExpiredLease)]
              else if src == row.allowedSrc then
                fate == [if sent then Relayed(Upstream, Sent(row.allowedDst, payload)) else SendFailed(Upstream)]
              else
                fate == [if sent then Relayed(Downstream, Sent(row.allowedSrc, payload)) else SendFailed(Downstream)]
  {
    EvaluateExact(table, payload, src, at);
  }

  /** Nothing that comes after cancellation is received, swept or counted. */
  lemma {:induction false} NothingAfterCancel(st: NodeState, before: seq<LoopEvent>, after: seq<LoopEvent>)
    ensures NodeRun(st, before + [Cancelled] + after) == NodeRun(st, before)
    decreases |before|
  {
    var all := before + [Cancelled] + after;
    if before == [] || before[0].Cancelled? {
      assert all[0].Cancelled?;
    } else {
      assert all[0] == before[0] && all[1..] == before[1..] + [Cancelled] + after;
      NothingAfterCancel(NodeStep(st, before[0]), before[1..], after);
    }
  }

  /** Over every run, the counters account for every receive result. */
  lemma {:induction false} ForwarderAccounting(st: NodeState, events: seq<LoopEvent>)
    ensures Accounts(st, NodeRun(st, events), Fates(st.routing, events))
    ensures |Fates(st.routing, events)| == ReceiveResults(events)
    decreases |events|
  {
    if events == [] || events[0].Cancelled? {
      assert st.outbox + [] == st.outbox;
    } else {
      var next := NodeStep(st, events[0]);
      StepAccounts(st, events[0]);
      ForwarderAccounting(next, events[1..]);
      AccountsCompose(st, next, NodeRun(st, events), FateOf(st.routing, events[0]),
                      Fates(next.routing, events[1..]));
    }
  }

  // -------------------------------------------------------------------- class

  class Node {
    var routing: Table
    var metrics: Metrics
    var activeChains: nat
    var outbox: seq<Sent>

    function State(): NodeState
      reads this
    {
      NodeState(routing, metrics, outbox)
    }

    constructor Bind()
      ensures State() == NodeState(map[], NO_METRICS, []) && activeChains == 0
    {
      routing := map[];
      metrics := NO_METRICS;
      activeChains := 0;
      outbox := [];
    }

    method InsertLease(lease: ForwarderLease)
      modifies this
      ensures routing == old(routing)[lease.chainId := EntryFrom(lease)]
      ensures State() == NodeStep(old(State()), Leased(lease))
      ensures activeChains == Min(|routing|, U32_MAX)
    {
      var entry := EntryFrom(lease);
      routing := routing[lease.chainId := entry];
      PublishActiveChains(|routing|);
    }

    /** Evicts exactly the rows whose lease ended before `now`, and counts them. */
    method SweepExpired(now: Time) returns (evicted: nat)
      modifies this
      ensures State() == NodeStep(old(State()), SweepTick(now))
      ensures routing.Keys <= old(routing).Keys
      ensures forall chain :: chain in routing ==> routing[chain] == old(routing)[chain]
      ensures forall chain :: chain in old(routing) ==>
                                (chain !in routing <==> old(routing)[chain].leaseExpiresAt < now)
      ensures evicted == |old(routing).Keys - routing.Keys|
      ensures activeChains == Min(|routing|, U32_MAX)
    {
      var before := |routing|;
      ghost var was := routing;
      routing := Retained(routing, now);
      var after := |routing|;
      assert was.Keys == routing.Keys + (was.Keys - routing.Keys);
      evicted := SaturatingSub(before, after);
      PublishActiveChains(after);
    }

    method PublishActiveChains(tableLen: nat)
      modifies this`activeChains
      ensures activeChains == Min(tableLen, U32_MAX)
    {
      activeChains := if tableLen <= U32_MAX then tableLen else U32_MAX;
    }

    method HandleInbound(payload: Bytes, src: SocketAddr, now: Time, sent: bool)
      modifies this`metrics, this`outbox
      ensures State() == NodeStep(old(State()), Received(payload, src, now, sent))
      ensures outbox == old(outbox)
              || exists target :: outbox == old(outbox) + [Sent(target, payload)]
    {
      var decision := Evaluate(routing, payload, src, now);
      match decision {
        case Forward(target, direction) =>
          metrics := metrics.CountIn(direction);
          if sent {
            outbox := outbox + [Sent(target, payload)];
            metrics := metrics.CountOut(direction);
          } else {
            metrics := metrics.CountDrop(Other);
          }
        case Drop(reason) =>
          metrics := metrics.CountDrop(reason);
      }
    }

    /** The receive loop, with every arm's turn and every lease arrival in the
        order it happened to be scheduled. */
    method Run(events: seq<LoopEvent>) returns (cancelled: bool)
      modifies this
      ensures State() == NodeRun(old(State()), events)
      ensures cancelled <==> exists i :: 0 <= i < |events| && events[i].Cancelled?
    {
      var i := 0;
      while i < |events|
        invariant 0 <= i <= |events|
        invariant NodeRun(State(), events[i..]) == NodeRun(old(State()), events)
        invariant forall j :: 0 <= j < i ==> !events[j].Cancelled?
      {
        assert events[i..][0] == events[i] && events[i..][1..] == events[i + 1..];
        match events[i] {
          case Cancelled => return true;
          case SweepTick(now) => var _ := SweepExpired(now);
          case Leased(lease) => InsertLease(lease);
          case Received(payload, src, at, sent) => HandleInbound(payload, src, at, sent);
          case ReceiveFailed => metrics := metrics.CountDrop(Other);
        }
        i := i + 1;
      }
      cancelled := false;
    }
  }
}
