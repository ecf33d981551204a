/** The conditions put on paths are exact: a plan that breaks one of them has a run in
    which forwarders turn a packet round, or send it too often. */
module RelayBoundary {
  import opened Base
  import opened Relay
  import opened Forwarder
  import opened RelayNetwork
  import opened RelayEscort

  // ------------------------------------------------------- legs along a path

  /** Hop `h` taken upwards. */
  function LegUp(path: Path, h: int): Leg
    requires 1 <= h <= |path| - 2
  {
    Leg(path[h - 1], path[h], path[h + 1], Peers(path[h - 1], path[h + 1]))
  }

  /** Hop `h` taken downwards, which its row allows only if its neighbours differ. */
  function LegDown(path: Path, h: int): Leg
    requires 1 <= h <= |path| - 2
  {
    Leg(path[h + 1], path[h], path[h - 1], Peers(path[h - 1], path[h + 1]))
  }

  /** The leg is by the row the plan gives some hop of the path. */
  ghost predicate OnPath(path: Path, leg: Leg) {
    exists h :: Between(path, h, leg.node, leg.peers.src, leg.peers.dst)
  }

  /** Any itinerary by rows of a path is a run of every plan with that path. */
  lemma PlannedRun(plan: Plan, chain: ChainId, legs: seq<Leg>) returns (start: Net, steps: seq<Step>)
    requires chain in plan && legs != [] && Itinerary(legs)
    requires forall i :: 0 <= i < |legs| ==> OnPath(plan[chain], legs[i])
    ensures Run(plan, start, steps)
    ensures var end := Exec(start, steps);
            && |end.origins| > 0 && end.origins[0].bytes == chain && Sends(end.emitted, 0) == |legs|
            && end.emitted != [] && end.emitted[|end.emitted| - 1].sent.trail == Visits(legs)
  {
    var dg := Datagram(legs[0].prev, legs[0].node, chain);
    assert chain[..RELAY_FRAME_PREFIX_LEN] == chain;
    start := Blank(legs);
    steps := EscortRun(chain, legs, dg);
    forall k | 0 <= k < |steps|
      ensures Issued(plan, steps[k])
    {
      if steps[k].Lease? {
        var i :| 0 <= i < |legs| && steps[k] == Lease(legs[i].node, legs[i].Terms(chain));
        assert OnPath(plan[chain], legs[i]);
      }
    }
  }

  // ------------------------------------------------------------- confinement

  /** Every emission of every run keeps to the chain it names, and goes one way. */
  ghost predicate AlwaysConfined(plan: Plan) {
    forall start, steps, e :: Run(plan, start, steps) && e in Exec(start, steps).emitted ==> Confined(plan, e)
  }

  /** Two legs that go different ways are a run that is not confined. */
  lemma TurnIsUnconfined(plan: Plan, chain: ChainId, a: Leg, b: Leg)
    requires chain in plan && Itinerary([a, b]) && OnPath(plan[chain], a) && OnPath(plan[chain], b)
    requires a.Heading() != b.Heading()
    ensures !AlwaysConfined(plan)
  {
    var start, steps := PlannedRun(plan, chain, [a, b]);
    var emitted := Exec(start, steps).emitted;
    var e := emitted[|emitted| - 1];
    assert e.sent.trail[0].direction == a.Heading() && e.sent.trail[1].direction == b.Heading();
    assert e in emitted && !Confined(plan, e);
  }

  lemma BentIsUnconfined(plan: Plan, chain: ChainId, i: int, m: int)
    requires chain in plan && !(StaysUp(plan[chain], i, m) && StaysDown(plan[chain], i, m))
    ensures !AlwaysConfined(plan)
  {
    var path := plan[chain];
    if !StaysUp(path, i, m) {
      var a, b := LegUp(path, m - 1), LegDown(path, i);
      assert Between(path, m - 1, a.node, a.peers.src, a.peers.dst);
      assert Between(path, i, b.node, b.peers.src, b.peers.dst);
      TurnIsUnconfined(plan, chain, a, b);
    } else {
      var a, b := LegDown(path, m + 1), LegUp(path, i);
      assert Between(path, m + 1, a.node, a.peers.src, a.peers.dst);
      assert Between(path, i, b.node, b.peers.src, b.peers.dst);
      TurnIsUnconfined(plan, chain, a, b);
    }
  }

  /** The exact boundary of confinement, over all runs of all plans. */
  lemma ConfinedIff(plan: Plan)
    ensures AlwaysConfined(plan) <==> StraightPlan(plan)
  {
    if StraightPlan(plan) {
      forall start, steps, e | Run(plan, start, steps) && e in Exec(start, steps).emitted
        ensures Confined(plan, e)
      {
        ChainConfinement(plan, start, steps, e);
      }
    } else {
      var chain :| chain in plan && !Straight(plan[chain]);
      var i, m :| !(StaysUp(plan[chain], i, m) && StaysDown(plan[chain], i, m));
      BentIsUnconfined(plan, chain, i, m);
    }
  }

  // -------------------------------------------- at most one send per forwarder

  /** No datagram of any run is sent more often than its chain has forwarders. */
  ghost predicate AlwaysWithinBudget(plan: Plan) {
    forall start, steps, id: nat ::
      Run(plan, start, steps) && id < |Exec(start, steps).origins|
      ==> Sends(Exec(start, steps).emitted, id) <= Budget(plan, Exec(start, steps).origins[id].bytes)
  }

  lemma TooLong(plan: Plan, chain: ChainId, legs: seq<Leg>)
    requires chain in plan && legs != [] && Itinerary(legs)
    requires forall i :: 0 <= i < |legs| ==> OnPath(plan[chain], legs[i])
    requires |legs| > |plan[chain]| - 2
    ensures !AlwaysWithinBudget(plan)
  {
    var start, steps := PlannedRun(plan, chain, legs);
    assert chain[..RELAY_FRAME_PREFIX_LEN] == chain;
    var h :| Between(plan[chain], h, legs[0].node, legs[0].peers.src, legs[0].peers.dst);
  }

  lemma LegsAreOnPath(path: Path, h: int)
    requires 1 <= h <= |path| - 2
    ensures OnPath(path, LegUp(path, h)) && OnPath(path, LegDown(path, h)) && LegUp(path, h).Works()
    ensures LegDown(path, h).Works() || EqualSides(path, h)
  {
    assert Between(path, h, path[h], path[h - 1], path[h + 1]);
  }

  /** Two itineraries make one if the second begins where the first ends. */
  lemma ItinerariesJoin(a: seq<Leg>, b: seq<Leg>)
    requires Itinerary(a) && Itinerary(b)
    requires a != [] && b != [] ==> b[0].prev == a[|a| - 1].node && b[0].node == a[|a| - 1].next
    ensures Itinerary(a + b)
  {
  }

  lemma JoinOnPath(path: Path, a: seq<Leg>, b: seq<Leg>)
    requires forall i :: 0 <= i < |a| ==> OnPath(path, a[i])
    requires forall i :: 0 <= i < |b| ==> OnPath(path, b[i])
    ensures forall i :: 0 <= i < |a + b| ==> OnPath(path, (a + b)[i])
  {
  }

  /** Up by `count` hops, the first of them `first`. */
  function UpLegs(path: Path, first: int, count: nat): (legs: seq<Leg>)
    requires 1 <= first && first + count <= |path| - 1
    ensures |legs| == count && forall t :: 0 <= t < count ==> legs[t] == LegUp(path, first + t)
  {
    seq(count, t requires 0 <= t < count => LegUp(path, first + t))
  }

  function DownLegs(path: Path, first: int, count: nat): (legs: seq<Leg>)
    requires 0 <= first - count && first <= |path| - 2
    ensures |legs| == count && forall t :: 0 <= t < count ==> legs[t] == LegDown(path, first - t)
  {
    seq(count, t requires 0 <= t < count => LegDown(path, first - t))
  }

  lemma UpLegsWork(path: Path, first: int, count: nat)
    requires 1 <= first && first + count <= |path| - 1
    ensures Itinerary(UpLegs(path, first, count))
    ensures forall i :: 0 <= i < count ==> OnPath(path, UpLegs(path, first, count)[i])
  {
    var legs := UpLegs(path, first, count);
    forall t | 0 <= t < count
      ensures legs[t].Works() && OnPath(path, legs[t])
    {
      LegsAreOnPath(path, first + t);
    }
    forall t | 0 < t < count
      ensures legs[t].prev == legs[t - 1].node && legs[t].node == legs[t - 1].next
    {
      assert legs[t - 1] == LegUp(path, first + (t - 1));
    }
  }

  lemma DownLegsWork(path: Path, first: int, count: nat)
    requires 0 <= first - count && first <= |path| - 2 && forall k :: !EqualSides(path, k)
    ensures Itinerary(DownLegs(path, first, count))
    ensures forall i :: 0 <= i < count ==> OnPath(path, DownLegs(path, first, count)[i])
  {
    var legs := DownLegs(path, first, count);
    forall t | 0 <= t < count
      ensures legs[t].Works() && OnPath(path, legs[t])
    {
      LegsAreOnPath(path, first - t);
    }
    forall t | 0 < t < count
      ensures legs[t].prev == legs[t - 1].node && legs[t].node == legs[t - 1].next
    {
      assert legs[t - 1] == LegDown(path, first - (t - 1));
    }
  }

  /** A hop repeated on the way up: ride to the later place, be taken for the earlier. */
  lemma RepeatedUp(plan: Plan, chain: ChainId, lo: int, hi: int)
    requires chain in plan
    requires var path := plan[chain];
             && 1 <= lo < hi <= |path| - 1 && path[lo] == path[hi] && path[lo - 1] == path[hi - 1]
    ensures !AlwaysWithinBudget(plan)
  {
    var path := plan[chain];
    var a, b := UpLegs(path, 1, hi - 1), UpLegs(path, lo, |path| - 1 - lo);
    UpLegsWork(path, 1, hi - 1);
    UpLegsWork(path, lo, |path| - 1 - lo);
    assert a[|a| - 1] == LegUp(path, hi - 1) && b[0] == LegUp(path, lo);
    ItinerariesJoin(a, b);
    JoinOnPath(path, a, b);
    TooLong(plan, chain, a + b);
  }

  ghost predicate EqualSides(path: Path, k: int) {
    1 <= k <= |path| - 2 && path[k - 1] == path[k + 1]
  }

  /** The same on the way down, where every row on the way must tell its neighbours apart. */
  lemma RepeatedDown(plan: Plan, chain: ChainId, lo: int, hi: int)
    requires chain in plan && forall k :: !EqualSides(plan[chain], k)
    requires var path := plan[chain];
             && 0 <= lo < hi <= |path| - 2 && path[lo] == path[hi] && path[lo + 1] == path[hi + 1]
    ensures !AlwaysWithinBudget(plan)
  {
    var path := plan[chain];
    var n := |path| - 2;
    var a, b := DownLegs(path, n, n - lo), DownLegs(path, hi, hi);
    DownLegsWork(path, n, n - lo);
    DownLegsWork(path, hi, hi);
    assert a != [] ==> a[|a| - 1] == LegDown(path, lo + 1);
    assert b[0] == LegDown(path, hi);
    ItinerariesJoin(a, b);
    JoinOnPath(path, a, b);
    TooLong(plan, chain, a + b);
  }

  /** Two hops between which a packet goes to and fro, upwards as far as either can tell. */
  ghost predicate Bounces(path: Path, q: int, r: int) {
    && 1 <= q <= |path| - 2 && 1 <= r <= |path| - 2
    && path[q - 1] == path[q + 1] == path[r] && path[r - 1] == path[r + 1] == path[q]
  }

  lemma BouncingIsTooLong(plan: Plan, chain: ChainId, q: int, r: int)
    requires chain in plan && Bounces(plan[chain], q, r)
    ensures !AlwaysWithinBudget(plan)
  {
    var path := plan[chain];
    var legs := seq(|path|, t requires 0 <= t < |path| => LegUp(path, if t % 2 == 0 then q else r));
    LegsAreOnPath(path, q);
    LegsAreOnPath(path, r);
    TooLong(plan, chain, legs);
  }

  /** On a straight path a hop between two equal neighbours is one of a bouncing pair,
      unless it is the only hop. */
  lemma EqualNeighboursBounce(path: Path, k: int) returns (q: int, r: int)
    requires Straight(path) && EqualSides(path, k)
    requires |path| > 3 || path[0] == path[1]
    ensures Bounces(path, q, r)
  {
    var n := |path| - 2;
    if n == 1 {
      q, r := 1, 1;
    } else if k < n {
      assert StaysDown(path, k, k);
      q, r := k, k + 1;
    } else {
      assert StaysUp(path, n - 1, n + 1);
      q, r := n, n - 1;
    }
  }

  lemma NotOneWayIsTooLong(plan: Plan, chain: ChainId, i: int, m: int)
    requires chain in plan && Straight(plan[chain])
    requires !(GoesUp(plan[chain], i, m) && GoesDown(plan[chain], i, m))
    ensures !AlwaysWithinBudget(plan)
  {
    var path := plan[chain];
    assert StaysUp(path, i, m) && StaysDown(path, i, m);
    if !GoesUp(path, i, m) {
      assert path[m] == path[i] && path[m - 1] == path[i - 1] && m != i;
      RepeatedUp(plan, chain, Min(i, m), Max(i, m));
    } else if k :| EqualSides(path, k) {
      var q, r := EqualNeighboursBounce(path, k);
      BouncingIsTooLong(plan, chain, q, r);
    } else {
      assert !EqualSides(path, m + 1);
      assert path[m + 1] == path[i + 1] && m != i;
      RepeatedDown(plan, chain, Min(i, m), Max(i, m));
    }
  }

  /** The exact boundary of confinement with at most one send per forwarder. */
  lemma OneWayIff(plan: Plan)
    ensures AlwaysConfined(plan) && AlwaysWithinBudget(plan) <==> ValidPlan(plan)
  {
    ConfinedIff(plan);
    if ValidPlan(plan) {
      forall chain | chain in plan
        ensures Straight(plan[chain])
      {
        OneWayIsStraight(plan[chain]);
      }
      forall start, steps, id: nat | Run(plan, start, steps) && id < |Exec(start, steps).origins|
        ensures Sends(Exec(start, steps).emitted, id) <= Budget(plan, Exec(start, steps).origins[id].bytes)
      {
        LoopFreedom(plan, start, steps, id);
      }
    } else if StraightPlan(plan) {
      var chain :| chain in plan && !OneWay(plan[chain]);
      var i, m :| !(GoesUp(plan[chain], i, m) && GoesDown(plan[chain], i, m));
      NotOneWayIsTooLong(plan, chain, i, m);
    }
  }
}
