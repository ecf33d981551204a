/** Sweeping is invisible to forwarding: the swept table refines a table that
    never forgets a row, under any clock that does not run backwards. */
module SweepRefinement {
  import opened Base
  import opened Relay
  import opened Forwarder

  // --------------------------------------------------------- whole-run theorem

  function WithoutSweeps(events: seq<LoopEvent>): (kept: seq<LoopEvent>)
    ensures forall i :: 0 <= i < |kept| ==> !kept[i].SweepTick?
    ensures (forall i :: 0 <= i < |events| ==> !events[i].SweepTick?) ==> kept == events
    decreases |events|
  {
    if events == [] then []
    else (if events[0].SweepTick? then [] else [events[0]]) + WithoutSweeps(events[1..])
  }

  /** Sweeps and lookups read a clock that never goes back past `from`. */
  ghost predicate ClockNondecreasing(from: Time, events: seq<LoopEvent>)
    decreases |events|
  {
    events == [] ||
    match events[0]
    case SweepTick(now) => from <= now && ClockNondecreasing(now, events[1..])
    case Received(_, _, at, _) => from <= at && ClockNondecreasing(at, events[1..])
    case _ => ClockNondecreasing(from, events[1..])
  }

  /** The swept table holds the kept table's rows, bar some that ended before `clock`. */
  ghost predicate Prunes(swept: Table, kept: Table, clock: Time) {
    && (forall chain :: chain in swept ==> chain in kept && swept[chain] == kept[chain])
    && (forall chain :: chain in kept && chain !in swept ==> kept[chain].leaseExpiresAt < clock)
  }

  function DropsAfterPeek(m: Metrics): nat {
    m.unknownChain + m.srcMismatch + m.expiredLease
  }

  /** Same datagrams sent, same counters, up to which of three reasons a drop got. */
  ghost predicate SameTraffic(a: NodeState, b: NodeState) {
    && a.outbox == b.outbox
    && a.metrics.inUp == b.metrics.inUp && a.metrics.inDown == b.metrics.inDown
    && a.metrics.outUp == b.metrics.outUp && a.metrics.outDown == b.metrics.outDown
    && a.metrics.other == b.metrics.other
    && DropsAfterPeek(a.metrics) == DropsAfterPeek(b.metrics)
    && a.metrics.unknownChain >= b.metrics.unknownChain
    && a.metrics.srcMismatch <= b.metrics.srcMismatch
    && a.metrics.expiredLease <= b.metrics.expiredLease
  }

  /** The two tables decide alike; only a drop's reason can differ, and then in one way. */
  lemma PrunedDecision(swept: Table, kept: Table, clock: Time, payload: Bytes, src: SocketAddr, now: Time)
    requires Prunes(swept, kept, clock) && clock <= now
    ensures var a := Evaluate(swept, payload, src, now);
            var b := Evaluate(kept, payload, src, now);
            a == b || (a == Drop(UnknownChain) && b in {Drop(SrcMismatch), Drop(ExpiredLease)})
  {
  }

  function ClockAfter(clock: Time, event: LoopEvent): Time {
    match event
    case SweepTick(now) => now
    case Received(_, _, at, _) => at
    case _ => clock
  }

  lemma ReceivedAlike(swept: NodeState, kept: NodeState, clock: Time, event: LoopEvent)
    requires event.Received? && clock <= event.at
    requires SameTraffic(swept, kept) && Prunes(swept.routing, kept.routing, clock)
    ensures SameTraffic(NodeStep(swept, event), NodeStep(kept, event))
  {
    PrunedDecision(swept.routing, kept.routing, clock, event.payload, event.src, event.at);
    ActAlike(swept, kept, event.payload, Evaluate(swept.routing, event.payload, event.src, event.at),
             Evaluate(kept.routing, event.payload, event.src, event.at), event.sent);
  }

  lemma ActAlike(swept: NodeState, kept: NodeState, payload: Bytes, a: Decision, b: Decision, sent: bool)
    requires SameTraffic(swept, kept)
    requires a == b || (a == Drop(UnknownChain) && b in {Drop(SrcMismatch), Drop(ExpiredLease)})
    ensures SameTraffic(Act(swept, payload, a, sent), Act(kept, payload, b, sent))
  {
  }

  lemma TablesStayRelated(swept: NodeState, kept: NodeState, clock: Time, event: LoopEvent)
    requires Prunes(swept.routing, kept.routing, clock) && clock <= ClockAfter(clock, event)
    ensures var kept' := if event.SweepTick? then kept else NodeStep(kept, event);
            Prunes(NodeStep(swept, event).routing, kept'.routing, ClockAfter(clock, event))
  {
  }

  lemma {:induction false} Simulation(swept: NodeState, kept: NodeState, clock: Time, events: seq<LoopEvent>)
    requires SameTraffic(swept, kept) && Prunes(swept.routing, kept.routing, clock)
    requires ClockNondecreasing(clock, events)
    ensures SameTraffic(NodeRun(swept, events), NodeRun(kept, WithoutSweeps(events)))
    decreases |events|
  {
    if events == [] {
    } else {
      var event, rest := events[0], events[1..];
      if event.SweepTick? {
        assert WithoutSweeps(events) == WithoutSweeps(rest);
      } else {
        assert WithoutSweeps(events)[0] == event && WithoutSweeps(events)[1..] == WithoutSweeps(rest);
      }
      if !event.Cancelled? {
        TablesStayRelated(swept, kept, clock, event);
        if event.Received? {
          ReceivedAlike(swept, kept, clock, event);
        }
        var kept' := if event.SweepTick? then kept else NodeStep(kept, event);
        Simulation(NodeStep(swept, event), kept', ClockAfter(clock, event), rest);
      }
    }
  }

  /** Main result: deleting every sweep from a run changes nothing that leaves the node. */
  lemma SweepIsInvisible(st: NodeState, start: Time, events: seq<LoopEvent>)
    requires ClockNondecreasing(start, events)
    ensures SameTraffic(NodeRun(st, events), NodeRun(st, WithoutSweeps(events)))
  {
    Simulation(st, st, start, events);
  }

  // ------------------------------------------- exact condition, for any clock

  function SweptTable(history: seq<LoopEvent>): Table {
    if history == [] then map[]
    else
      var before := SweptTable(history[..|history| - 1]);
      match history[|history| - 1]
      case Leased(lease) => Inserted(before, lease)
      case SweepTick(now) => Retained(before, now)
      case _ => before
  }

  function KeptTable(history: seq<LoopEvent>): Table {
    if history == [] then map[]
    else
      var before := KeptTable(history[..|history| - 1]);
      match history[|history| - 1]
      case Leased(lease) => Inserted(before, lease)
      case _ => before
  }

  /** Position of the last lease for `chain`, if any. */
  function LastLease(history: seq<LoopEvent>, chain: ChainId): (r: Option<nat>)
    ensures r.Some? ==> r.value < |history| && history[r.value].Leased? && history[r.value].lease.chainId == chain
    ensures forall i :: (if r.Some? then r.value + 1 else 0) <= i < |history|
                        ==> !(history[i].Leased? && history[i].lease.chainId == chain)
  {
    if history == [] then None
    else
      var last := history[|history| - 1];
      if last.Leased? && last.lease.chainId == chain then Some(|history| - 1)
      else LastLease(history[..|history| - 1], chain)
  }

  /** Some sweep after position `from` read a clock later than `expiry`. */
  ghost predicate SweptPast(history: seq<LoopEvent>, from: nat, expiry: Time) {
    exists i :: from < i < |history| && history[i].SweepTick? && history[i].now > expiry
  }

  /** Each table, described without running it: the kept table holds the last
      lease of every chain, the swept one those no later sweep outran. */
  lemma {:induction false} TableContents(history: seq<LoopEvent>, chain: ChainId)
    ensures var last := LastLease(history, chain);
            && (chain in KeptTable(history) <==> last.Some?)
            && (last.Some? ==>
                  var entry := EntryFrom(history[last.value].lease);
                  && KeptTable(history)[chain] == entry
                  && (chain in SweptTable(history) <==> !SweptPast(history, last.value, entry.leaseExpiresAt))
                  && (chain in SweptTable(history) ==> SweptTable(history)[chain] == entry))
            && (last.None? ==> chain !in SweptTable(history))
    decreases |history|
  {
    if history == [] {
    } else {
      var init := history[..|history| - 1];
      TableContents(init, chain);
      var last := LastLease(history, chain);
      if last.Some? && last.value < |init| {
        var expiry := history[last.value].lease.leaseExpiresAt;
        assert SweptPast(history, last.value, expiry)
          <==> SweptPast(init, last.value, expiry)
               || (history[|init|].SweepTick? && history[|init|].now > expiry) by {
          if SweptPast(init, last.value, expiry) {
            var i :| last.value < i < |init| && init[i].SweepTick? && init[i].now > expiry;
            assert history[i] == init[i];
          }
          if SweptPast(history, last.value, expiry) {
            var i :| last.value < i < |history| && history[i].SweepTick? && history[i].now > expiry;
            assert i == |init| || history[i] == init[i];
          }
        }
      }
    }
  }

  /** With no assumption on the clock, sweeping changes a forward decision exactly
      when a sweep, since the chain's last lease, read a clock past an expiry that
      the lookup's own clock has not reached. */
  lemma SweepVisibleIff(history: seq<LoopEvent>, payload: Bytes, src: SocketAddr, now: Time)
    ensures var swept := Evaluate(SweptTable(history), payload, src, now);
            var kept := Evaluate(KeptTable(history), payload, src, now);
            (swept != kept && (swept.Forward? || kept.Forward?))
            <==>
            |payload| >= 16 &&
            var last := LastLease(history, payload[..16]);
            last.Some? &&
            var lease := history[last.value].lease;
            && now <= lease.leaseExpiresAt
            && SweptPast(history, last.value, lease.leaseExpiresAt)
            && src in {lease.allowedSrc, lease.allowedDst}
  {
    if |payload| >= 16 {
      TableContents(history, payload[..16]);
    }
  }

  /** The clock hypothesis is needed: one step back makes a sweep lose a live row. */
  lemma SteppedBackClockLosesTraffic(lease: ForwarderLease)
    requires lease.leaseExpiresAt == 10
    ensures var history := [Leased(lease), SweepTick(11)];
            && Evaluate(SweptTable(history), lease.chainId, lease.allowedSrc, 10) == Drop(UnknownChain)
            && Evaluate(KeptTable(history), lease.chainId, lease.allowedSrc, 10)
               == Forward(lease.allowedDst, Upstream)
  {
    var history := [Leased(lease), SweepTick(11)];
    assert history[..1] == [Leased(lease)];
    assert history[..1][..0] == [];
    assert lease.chainId[..16] == lease.chainId;
    assert SweptTable(history[..1]) == map[lease.chainId := EntryFrom(lease)];
    assert KeptTable(history[..1]) == map[lease.chainId := EntryFrom(lease)];
  }

  /** The swept table is the routing table the node's loop really holds. */
  lemma {:induction false} SweptTableIsNodeTable(history: seq<LoopEvent>, metrics: Metrics, outbox: seq<Sent>)
    requires forall i :: 0 <= i < |history| ==> !history[i].Cancelled?
    ensures NodeRun(NodeState(map[], metrics, outbox), history).routing == SweptTable(history)
    decreases |history|
  {
    if history == [] {
    } else {
      var init, st := history[..|history| - 1], NodeState(map[], metrics, outbox);
      SweptTableIsNodeTable(init, metrics, outbox);
      NodeRunSnoc(st, init, history[|history| - 1]);
      assert init + [history[|history| - 1]] == history;
    }
  }

  lemma {:induction false} NodeRunSnoc(st: NodeState, events: seq<LoopEvent>, last: LoopEvent)
    requires forall i :: 0 <= i < |events| ==> !events[i].Cancelled?
    ensures NodeRun(st, events + [last]) == NodeStep(NodeRun(st, events), last)
    decreases |events|
  {
    if events == [] {
      assert NodeRun(NodeStep(st, last), ([] + [last])[1..]) == NodeStep(st, last);
    } else {
      assert (events + [last])[1..] == events[1..] + [last];
      NodeRunSnoc(NodeStep(st, events[0]), events[1..], last);
    }
  }
}
