/** The per-flow table: flow states on the heap, shared through a map, touched from both
    directions and collected one shard at a time. */
module FlowTable {
  import opened Base

  datatype FlowKey = FlowKey(proto: byte, src: IpAddr, srcPort: u16, dst: IpAddr, dstPort: u16) {
    function Reversed(): FlowKey {
      FlowKey(proto, dst, dstPort, src, srcPort)
    }
  }

  /** Looking a flow up from the other end twice is looking it up from this one; a
      key is its own reverse only if both its ends are the same. */
  lemma ReversedTwice(key: FlowKey)
    ensures key.Reversed().Reversed() == key
    ensures key.Reversed() == key <==> key.src == key.dst && key.srcPort == key.dstPort
  {
  }

  datatype Side = Inbound | Outbound

  /** The value of a flow's counters at one instant. */
  datatype Flow = Flow(bytesIn: u64, bytesOut: u64, lastSeen: u64) {
    function Count(side: Side): u64 {
      match side
      case Inbound => bytesIn
      case Outbound => bytesOut
    }
  }

  type Flows = map<FlowKey, Flow>

  const FRESH_FLOW := Flow(0, 0, 0)

  function WithCount(flow: Flow, side: Side, bytes: u64): Flow {
    match side
    case Inbound => flow.(bytesIn := WrappingAdd(flow.bytesIn, bytes))
    case Outbound => flow.(bytesOut := WrappingAdd(flow.bytesOut, bytes))
  }

  function Touched(flows: Flows, key: FlowKey, side: Side, bytes: u64, now: u64): Flows {
    var flow := if key in flows then flows[key] else FRESH_FLOW;
    flows[key := WithCount(flow, side, bytes).(lastSeen := now)]
  }

  /** A touch in its parts: finding or making the entry, then writing to it. */
  lemma TouchedByParts(flows: Flows, key: FlowKey, side: Side, bytes: u64, now: u64)
    ensures var found := flows[key := if key in flows then flows[key] else FRESH_FLOW];
            found[key := WithCount(found[key], side, bytes).(lastSeen := now)] == Touched(flows, key, side, bytes, now)
  {
  }

  /** The flows of a shard that are idle at the cutoff. */
  function Idle(flows: Flows, shardOf: FlowKey -> nat, shard: nat, cutoff: u64): Flows {
    map key | key in flows && shardOf(key) == shard && flows[key].lastSeen < cutoff :: flows[key]
  }

  function Cutoff(now: u64, idle: u64): u64 {
    SaturatingSub(now, idle)
  }

  /** A table after the shards before `shard` have been collected, with no touch between. */
  function Visited(flows: Flows, shardOf: FlowKey -> nat, shard: nat, cutoff: u64): Flows {
    map key | key in flows && !(shardOf(key) < shard && flows[key].lastSeen < cutoff) :: flows[key]
  }

  /** The flows seen since the cutoff. */
  function SeenSince(flows: Flows, cutoff: u64): Flows {
    map key | key in flows && flows[key].lastSeen >= cutoff :: flows[key]
  }

  lemma AllVisited(flows: Flows, shardOf: FlowKey -> nat, shardCount: nat, cutoff: u64)
    requires forall key :: shardOf(key) < shardCount
    ensures Visited(flows, shardOf, shardCount, cutoff) == SeenSince(flows, cutoff)
    ensures Visited(flows, shardOf, 0, cutoff) == flows
  {
  }

  lemma RemovalSize(flows: Flows, idle: Flows)
    requires idle.Keys <= flows.Keys
    ensures |flows - idle.Keys| == |flows| - |idle|
  {
    assert (flows - idle.Keys).Keys == flows.Keys - idle.Keys;
    assert |flows.Keys - idle.Keys| == |flows.Keys| - |idle.Keys|;
  }

  lemma VisitOneMore(flows: Flows, shardOf: FlowKey -> nat, shard: nat, cutoff: u64)
    ensures var before := Visited(flows, shardOf, shard, cutoff);
            var idle := Idle(before, shardOf, shard, cutoff);
            && Visited(flows, shardOf, shard + 1, cutoff) == before - idle.Keys
            && |before - idle.Keys| == |before| - |idle|
  {
    var before := Visited(flows, shardOf, shard, cutoff);
    RemovalSize(before, Idle(before, shardOf, shard, cutoff));
  }

  /** The saturating cutoff says what the idle window promises, even when the window
      is longer than the clock has run. */
  lemma CutoffMeansIdle(lastSeen: u64, now: u64, idle: u64)
    ensures lastSeen < Cutoff(now, idle) <==> lastSeen + idle < now
  {
  }

  // -------------------------------------------------------------------- class

  class FlowState {
    var bytesIn: u64
    var bytesOut: u64
    var lastSeen: u64
    ghost const owner: FlowKey

    constructor (ghost owner: FlowKey)
      ensures bytesIn == 0 && bytesOut == 0 && lastSeen == 0 && this.owner == owner
    {
      bytesIn, bytesOut, lastSeen := 0, 0, 0;
      this.owner := owner;
    }

    function Value(): Flow
      reads this
    {
      Flow(bytesIn, bytesOut, lastSeen)
    }
  }

  class Table {
    const shardOf: FlowKey -> nat
    const shardCount: nat
    var inner: map<FlowKey, FlowState>
    ghost var retired: set<FlowState>

    ghost predicate Valid()
      reads this
    {
      && (forall key :: shardOf(key) < shardCount)
      && (forall key :: key in inner ==> inner[key].owner == key && inner[key] !in retired)
    }

    ghost function Snapshot(): Flows
      reads this, inner.Values
    {
      map key | key in inner :: inner[key].Value()
    }

    constructor (shardOf: FlowKey -> nat, shardCount: nat)
      requires forall key :: shardOf(key) < shardCount
      ensures Valid() && Snapshot() == map[] && retired == {}
      ensures this.shardOf == shardOf && this.shardCount == shardCount
    {
      this.shardOf, this.shardCount := shardOf, shardCount;
      inner := map[];
      retired := {};
    }

    /** Adds to the live state of the key, creating one if there is none. A state
        that has left the map is never written again, whoever still holds it. */
    method TouchOut(key: FlowKey, bytes: u64, now: u64)
      requires Valid()
      modifies this`inner, if key in inner then {inner[key]} else {}
      ensures Valid() && retired == old(retired)
      ensures Snapshot() == Touched(old(Snapshot()), key, Outbound, bytes, now)
      ensures key in old(inner) ==> inner == old(inner)
      ensures forall s :: s in retired ==> s.Value() == old(s.Value())
    {
      TouchedByParts(Snapshot(), key, Outbound, bytes, now);
      var entry := OrInsert(key);
      label inserted:
      entry.bytesOut := WrappingAdd(entry.bytesOut, bytes);
      entry.lastSeen := now;
      OnlyOneChanged@inserted(key);
    }

    method TouchIn(key: FlowKey, bytes: u64, now: u64)
      requires Valid()
      modifies this`inner, if key in inner then {inner[key]} else {}
      ensures Valid() && retired == old(retired)
      ensures Snapshot() == Touched(old(Snapshot()), key, Inbound, bytes, now)
      ensures key in old(inner) ==> inner == old(inner)
      ensures forall s :: s in retired ==> s.Value() == old(s.Value())
    {
      TouchedByParts(Snapshot(), key, Inbound, bytes, now);
      var entry := OrInsert(key);
      label inserted:
      entry.bytesIn := WrappingAdd(entry.bytesIn, bytes);
      entry.lastSeen := now;
      OnlyOneChanged@inserted(key);
    }

    twostate lemma OnlyOneChanged(key: FlowKey)
      requires inner == old(inner) && key in inner
      requires forall k :: k in inner && k != key ==> inner[k].Value() == old(inner[k].Value())
      ensures Snapshot().Keys == old(Snapshot()).Keys
      ensures Snapshot() == old(Snapshot())[key := inner[key].Value()]
    {
    }

    method OrInsert(key: FlowKey) returns (entry: FlowState)
      requires Valid()
      modifies this`inner
      ensures Valid() && key in inner && entry == inner[key]
      ensures key in old(inner) ==> inner == old(inner)
      ensures key !in old(inner) ==> fresh(entry) && inner == old(inner)[key := entry]
      ensures entry.Value() == if key in old(inner) then old(Snapshot())[key] else FRESH_FLOW
      ensures Snapshot() == old(Snapshot())[key := entry.Value()]
    {
      if key in inner {
        entry := inner[key];
      } else {
        entry := new FlowState(key);
        inner := inner[key := entry];
      }
    }

    method Get(key: FlowKey) returns (r: Option<FlowState>)
      requires Valid()
      ensures r.Some? <==> key in inner
      ensures r.Some? ==> r.value == inner[key]
      ensures r.Some? ==> r.value.Value() == Snapshot()[key] && r.value !in retired
    {
      r := if key in inner then Some(inner[key]) else None;
    }

    /** One shard's turn: its idle flows leave the map, whole and uncounted for no longer. */
    method CollectShard(shard: nat, cutoff: u64) returns (dropped: nat)
      requires Valid()
      modifies this`inner, this`retired
      ensures Valid()
      ensures Snapshot() == old(Snapshot()) - Idle(old(Snapshot()), shardOf, shard, cutoff).Keys
      ensures dropped == |Idle(old(Snapshot()), shardOf, shard, cutoff)|
      ensures inner.Keys <= old(inner).Keys && forall key :: key in inner ==> inner[key] == old(inner)[key]
      ensures old(retired) <= retired
      ensures forall key :: key in old(inner) && key !in inner ==> old(inner)[key] in retired
    {
      ghost var idle := Idle(Snapshot(), shardOf, shard, cutoff);
      var stale := set key | key in inner && shardOf(key) == shard && inner[key].lastSeen < cutoff;
      assert stale == idle.Keys;
      dropped := |stale|;
      Remove(stale);
    }

    method Remove(keys: set<FlowKey>)
      requires Valid()
      modifies this`inner, this`retired
      ensures Valid()
      ensures inner == old(inner) - keys && Snapshot() == old(Snapshot()) - keys
      ensures old(retired) <= retired
      ensures forall key :: key in old(inner) && key in keys ==> old(inner)[key] in retired
    {
      retired := retired + set key | key in inner && key in keys :: inner[key];
      inner := inner - keys;
    }

    /** With no touch in between, a whole collection drops exactly the flows not seen
        since the cutoff, and counts them. */
    method Gc(now: u64, idle: u64) returns (dropped: nat)
      requires Valid()
      modifies this`inner, this`retired
      ensures Valid()
      ensures Snapshot() == SeenSince(old(Snapshot()), Cutoff(now, idle))
      ensures dropped == |old(Snapshot())| - |Snapshot()|
    {
      ghost var start := Snapshot();
      var cutoff := Cutoff(now, idle);
      AllVisited(start, shardOf, shardCount, cutoff);
      dropped := 0;
      var shard := 0;
      while shard < shardCount
        invariant Valid() && 0 <= shard <= shardCount
        invariant Snapshot() == Visited(start, shardOf, shard, cutoff)
        invariant dropped == |start| - |Snapshot()|
      {
        VisitOneMore(start, shardOf, shard, cutoff);
        var n := CollectShard(shard, cutoff);
        dropped := dropped + n;
        shard := shard + 1;
      }
    }
  }
}
